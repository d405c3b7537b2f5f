/** Edges (`struct Aresta`), the comparator `compararArestas`, and the graph
    notions the Kruskal selection is specified with: walks, connectivity and
    acyclicity over a sequence of edges read as an undirected multigraph. */
module Graph {

  /** An undirected edge between `origem` and `destino` with weight `peso`.
      The source's weights are doubles; here they are exact integers. */
  datatype Aresta = Aresta(origem: int, destino: int, peso: int)

  /** `compararArestas(a, b)`: a sorts before b when it is strictly lighter. */
  predicate CompararArestas(a: Aresta, b: Aresta)
  {
    a.peso < b.peso
  }

  /** The comparator is a strict weak order, as std::sort requires of it. */
  lemma CompararArestasIsStrictWeakOrder(a: Aresta, b: Aresta, c: Aresta)
    ensures !CompararArestas(a, a)
    ensures CompararArestas(a, b) && CompararArestas(b, c) ==> CompararArestas(a, c)
    ensures !CompararArestas(a, b) && !CompararArestas(b, a) && !CompararArestas(b, c) && !CompararArestas(c, b)
      ==> !CompararArestas(a, c) && !CompararArestas(c, a)
  {
  }

  /** Sorted for the comparator: no edge is strictly lighter than one before it. */
  predicate SortedByPeso(s: seq<Aresta>)
  {
    forall i, j :: 0 <= i < j < |s| ==> !CompararArestas(s[j], s[i])
  }

  /** Total weight of a sequence of edges. */
  function SumPesos(s: seq<Aresta>): (r: int)
  {
    if s == [] then 0 else SumPesos(s[..|s| - 1]) + s[|s| - 1].peso
  }

  lemma SumPesosSnoc(s: seq<Aresta>, e: Aresta)
    ensures SumPesos(s + [e]) == SumPesos(s) + e.peso
  {
    assert (s + [e])[..|s|] == s;
  }

  /** Both endpoints lie among the vertices 0 .. n-1. */
  predicate InRange(e: Aresta, n: int)
  {
    0 <= e.origem < n && 0 <= e.destino < n
  }

  /** Edge e joins a and b, in either orientation. */
  predicate Joins(e: Aresta, a: int, b: int)
  {
    (e.origem == a && e.destino == b) || (e.origem == b && e.destino == a)
  }

  ghost predicate Adjacent(E: seq<Aresta>, a: int, b: int)
  {
    exists e :: e in E && Joins(e, a, b)
  }

  /** A walk: consecutive vertices are joined by an edge of E. */
  ghost predicate IsWalk(E: seq<Aresta>, w: seq<int>)
  {
    |w| > 0 && forall i :: 0 < i < |w| ==> Adjacent(E, w[i - 1], w[i])
  }

  /** a and b are joined by some walk over the edges of E. */
  ghost predicate Connected(E: seq<Aresta>, a: int, b: int)
  {
    exists w :: IsWalk(E, w) && w[0] == a && w[|w| - 1] == b
  }

  lemma ConnectedRefl(E: seq<Aresta>, a: int)
    ensures Connected(E, a, a)
  {
    assert IsWalk(E, [a]);
  }

  lemma NothingAdjacent(a: int, b: int)
    ensures !Adjacent([], a, b)
  {
  }

  /** With no edges, a vertex is connected to itself only. */
  lemma ConnectedEmpty(a: int, b: int)
    ensures Connected([], a, b) <==> a == b
  {
    if Connected([], a, b) {
      var w :| IsWalk([], w) && w[0] == a && w[|w| - 1] == b;
      if |w| > 1 {
        NothingAdjacent(w[0], w[1]);
        assert false;
      }
    }
    ConnectedRefl([], a);
  }

  lemma EdgeConnects(E: seq<Aresta>, e: Aresta)
    requires e in E
    ensures Connected(E, e.origem, e.destino) && Connected(E, e.destino, e.origem)
  {
    assert IsWalk(E, [e.origem, e.destino]);
    assert IsWalk(E, [e.destino, e.origem]);
  }

  lemma ConnectedSym(E: seq<Aresta>, a: int, b: int)
    requires Connected(E, a, b)
    ensures Connected(E, b, a)
  {
    var w :| IsWalk(E, w) && w[0] == a && w[|w| - 1] == b;
    var r := seq(|w|, i requires 0 <= i < |w| => w[|w| - 1 - i]);
    forall i | 0 < i < |r|
      ensures Adjacent(E, r[i - 1], r[i])
    {
      assert Adjacent(E, w[(|w| - i) - 1], w[|w| - i]);
      var e :| e in E && Joins(e, w[|w| - 1 - i], w[|w| - i]);
      assert Joins(e, r[i - 1], r[i]);
    }
    assert IsWalk(E, r);
  }

  lemma ConnectedTrans(E: seq<Aresta>, a: int, b: int, c: int)
    requires Connected(E, a, b) && Connected(E, b, c)
    ensures Connected(E, a, c)
  {
    var w1 :| IsWalk(E, w1) && w1[0] == a && w1[|w1| - 1] == b;
    var w2 :| IsWalk(E, w2) && w2[0] == b && w2[|w2| - 1] == c;
    var w := w1 + w2[1..];
    forall i | 0 < i < |w|
      ensures Adjacent(E, w[i - 1], w[i])
    {
      if i < |w1| {
        assert w[i - 1] == w1[i - 1] && w[i] == w1[i];
      } else {
        var k := i - |w1| + 1;
        assert w[i - 1] == w2[k - 1] && w[i] == w2[k];
      }
    }
    assert IsWalk(E, w);
  }

  /** Connectivity only depends on which edges are present. */
  lemma ConnectedMono(E: seq<Aresta>, F: seq<Aresta>, a: int, b: int)
    requires forall e :: e in E ==> e in F
    requires Connected(E, a, b)
    ensures Connected(F, a, b)
  {
    var w :| IsWalk(E, w) && w[0] == a && w[|w| - 1] == b;
    assert IsWalk(F, w) by {
      forall i | 0 < i < |w|
        ensures Adjacent(F, w[i - 1], w[i])
      {
        assert Adjacent(E, w[i - 1], w[i]);
        var e :| e in E && Joins(e, w[i - 1], w[i]);
      }
    }
  }

  /** Reordering the edges changes no connectivity. */
  lemma ConnectedPermutation(E: seq<Aresta>, F: seq<Aresta>)
    requires multiset(E) == multiset(F)
    ensures forall a, b :: Connected(E, a, b) <==> Connected(F, a, b)
  {
    assert forall e :: e in E <==> e in multiset(E);
    assert forall e :: e in F <==> e in multiset(F);
    forall a, b
      ensures Connected(E, a, b) <==> Connected(F, a, b)
    {
      if Connected(E, a, b) {
        ConnectedMono(E, F, a, b);
      }
      if Connected(F, a, b) {
        ConnectedMono(F, E, a, b);
      }
    }
  }

  /** If every edge of E has its endpoints connected in F, then so does every
      pair that E connects. */
  lemma {:induction false} ConnectedRefine(E: seq<Aresta>, F: seq<Aresta>, w: seq<int>)
    requires IsWalk(E, w)
    requires forall e :: e in E ==> Connected(F, e.origem, e.destino)
    ensures Connected(F, w[0], w[|w| - 1])
    decreases |w|
  {
    if |w| == 1 {
      ConnectedRefl(F, w[0]);
    } else {
      var v := w[..|w| - 1];
      assert IsWalk(E, v) by {
        forall i | 0 < i < |v| ensures Adjacent(E, v[i - 1], v[i]) {
          assert v[i - 1] == w[i - 1] && v[i] == w[i];
        }
      }
      ConnectedRefine(E, F, v);
      var b, c := w[|w| - 2], w[|w| - 1];
      assert Adjacent(E, b, c);
      var e :| e in E && Joins(e, b, c);
      if e.origem == b {
        ConnectedTrans(F, w[0], b, c);
      } else {
        ConnectedSym(F, e.origem, e.destino);
        ConnectedTrans(F, w[0], b, c);
      }
    }
  }

  /** Pairs connected once edge e is added are connected either without e, or
      through e (in one of its two directions). */
  ghost predicate ConnectedVia(E: seq<Aresta>, e: Aresta, a: int, b: int)
  {
    || Connected(E, a, b)
    || (Connected(E, a, e.origem) && Connected(E, e.destino, b))
    || (Connected(E, a, e.destino) && Connected(E, e.origem, b))
  }

  lemma ConnectedSnoc(E: seq<Aresta>, e: Aresta, a: int, b: int)
    requires Connected(E + [e], a, b)
    ensures ConnectedVia(E, e, a, b)
  {
    var w :| IsWalk(E + [e], w) && w[0] == a && w[|w| - 1] == b;
    WalkSnoc(E, e, w);
  }

  lemma {:induction false} WalkSnoc(E: seq<Aresta>, e: Aresta, w: seq<int>)
    requires IsWalk(E + [e], w)
    ensures ConnectedVia(E, e, w[0], w[|w| - 1])
    decreases |w|
  {
    var a := w[0];
    if |w| == 1 {
      ConnectedRefl(E, a);
    } else {
      var v := w[..|w| - 1];
      assert IsWalk(E + [e], v) by {
        forall i | 0 < i < |v| ensures Adjacent(E + [e], v[i - 1], v[i]) {
          assert v[i - 1] == w[i - 1] && v[i] == w[i];
        }
      }
      WalkSnoc(E, e, v);
      var c, b := w[|w| - 2], w[|w| - 1];
      assert Adjacent(E + [e], c, b);
      var f :| f in E + [e] && Joins(f, c, b);
      if f in E {
        assert Adjacent(E, c, b);
        assert IsWalk(E, [c, b]);
        StepExtendsVia(E, e, a, c, b);
      } else {
        assert f == e;
        ConnectedRefl(E, b);
        ConnectedRefl(E, c);
      }
    }
  }

  lemma StepExtendsVia(E: seq<Aresta>, e: Aresta, a: int, c: int, b: int)
    requires ConnectedVia(E, e, a, c) && Connected(E, c, b)
    ensures ConnectedVia(E, e, a, b)
  {
    if Connected(E, a, c) {
      ConnectedTrans(E, a, c, b);
    } else if Connected(E, a, e.origem) && Connected(E, e.destino, c) {
      ConnectedTrans(E, e.destino, c, b);
    } else {
      ConnectedTrans(E, e.origem, c, b);
    }
  }

  /** Built without cycles: each edge joins two vertices that the edges before
      it did not already connect. */
  ghost predicate BuiltAcyclic(F: seq<Aresta>)
  {
    forall k :: 0 <= k < |F| ==> !Connected(F[..k], F[k].origem, F[k].destino)
  }

  /** T is a spanning forest of the graph with edges s: built without cycles
      from edges of s, it connects exactly the pairs s connects. */
  ghost predicate SpanningForest(T: seq<Aresta>, s: seq<Aresta>)
  {
    && BuiltAcyclic(T)
    && (forall f :: f in T ==> f in s)
    && (forall a, b :: Connected(T, a, b) <==> Connected(s, a, b))
  }

  /** Being a spanning forest depends only on the multiset of the graph's edges. */
  lemma SpanningForestPermutation(T: seq<Aresta>, E: seq<Aresta>, F: seq<Aresta>)
    requires multiset(E) == multiset(F) && SpanningForest(T, E)
    ensures SpanningForest(T, F)
  {
    assert forall f :: f in E <==> f in multiset(E);
    assert forall f :: f in F <==> f in multiset(F);
    ConnectedPermutation(E, F);
  }

  /** F with its k-th edge removed. */
  function Without(F: seq<Aresta>, k: int): (r: seq<Aresta>)
    requires 0 <= k < |F|
  {
    F[..k] + F[k + 1..]
  }

  /** No edge of F lies on a cycle: the other edges do not connect its endpoints. */
  ghost predicate NoEdgeOnCycle(F: seq<Aresta>)
  {
    forall k :: 0 <= k < |F| ==> !Connected(Without(F, k), F[k].origem, F[k].destino)
  }

  /** Appending an edge whose endpoints are not yet connected keeps a sequence built without cycles. */
  lemma AcyclicSnoc(F: seq<Aresta>, e: Aresta)
    requires BuiltAcyclic(F) && !Connected(F, e.origem, e.destino)
    ensures BuiltAcyclic(F + [e])
  {
    var G := F + [e];
    forall k | 0 <= k < |G|
      ensures !Connected(G[..k], G[k].origem, G[k].destino)
    {
      if k < |F| {
        assert G[..k] == F[..k];
      } else {
        assert G[..k] == F;
      }
    }
  }

  /** A sequence built without cycles is acyclic, and so is each of its prefixes. */
  lemma BuiltAcyclicHasNoCycle(F: seq<Aresta>)
    requires BuiltAcyclic(F)
    ensures forall j :: 0 <= j <= |F| ==> NoEdgeOnCycle(F[..j])
  {
    forall j | 0 <= j <= |F| ensures NoEdgeOnCycle(F[..j]) {
      BuiltAcyclicPrefix(F, j);
      BuiltAcyclicIsAcyclic(F[..j]);
    }
  }

  lemma BuiltAcyclicPrefix(F: seq<Aresta>, j: int)
    requires BuiltAcyclic(F) && 0 <= j <= |F|
    ensures BuiltAcyclic(F[..j])
  {
    forall k | 0 <= k < j ensures !Connected(F[..j][..k], F[..j][k].origem, F[..j][k].destino) {
      assert F[..j][..k] == F[..k];
    }
  }

  lemma {:induction false} BuiltAcyclicIsAcyclic(F: seq<Aresta>)
    requires BuiltAcyclic(F)
    ensures NoEdgeOnCycle(F)
    decreases |F|
  {
    if F != [] {
      var G, e := F[..|F| - 1], F[|F| - 1];
      assert F == G + [e];
      BuiltAcyclicPrefix(F, |F| - 1);
      BuiltAcyclicIsAcyclic(G);
      forall k | 0 <= k < |F|
        ensures !Connected(Without(F, k), F[k].origem, F[k].destino)
      {
        if k == |F| - 1 {
          assert Without(F, k) == G;
        } else {
          SnocKeepsNoCycleAt(G, e, k);
        }
      }
    }
  }

  lemma SnocKeepsNoCycleAt(G: seq<Aresta>, e: Aresta, k: int)
    requires 0 <= k < |G| && NoEdgeOnCycle(G) && !Connected(G, e.origem, e.destino)
    ensures !Connected(Without(G + [e], k), G[k].origem, G[k].destino)
  {
    var H := Without(G, k);
    var o, d := G[k].origem, G[k].destino;
    assert Without(G + [e], k) == H + [e];
    assert forall f :: f in H ==> f in G;
    if Connected(H + [e], o, d) {
      ConnectedSnoc(H, e, o, d);
      assert !Connected(H, o, d);
      EdgeConnects(G, G[k]);
      if Connected(H, o, e.origem) && Connected(H, e.destino, d) {
        ConnectedMono(H, G, o, e.origem);
        ConnectedMono(H, G, e.destino, d);
        ConnectedSym(G, o, e.origem);
        ConnectedTrans(G, e.origem, o, d);
        ConnectedSym(G, e.destino, d);
        ConnectedTrans(G, e.origem, d, e.destino);
      } else {
        assert Connected(H, o, e.destino) && Connected(H, e.origem, d);
        ConnectedMono(H, G, o, e.destino);
        ConnectedMono(H, G, e.origem, d);
        ConnectedSym(G, o, e.destino);
        ConnectedTrans(G, e.origem, d, o);
        ConnectedTrans(G, e.origem, o, e.destino);
      }
      assert false;
    }
  }

  /** Vertex `a` is connected to no smaller vertex: it is the least vertex of its component. */
  ghost predicate LeastInComponent(E: seq<Aresta>, a: int)
  {
    forall b :: 0 <= b < a ==> !Connected(E, a, b)
  }

  /** The least vertex of every connected component of the graph on vertices
      [0, V) with edges E; there is one per component. */
  ghost function Reps(E: seq<Aresta>, V: nat): (r: set<int>)
  {
    set a | 0 <= a < V && LeastInComponent(E, a)
  }

  /** Edge sequences that connect the same pairs have the same components. */
  lemma SameConnectivitySameReps(E: seq<Aresta>, F: seq<Aresta>, V: nat)
    requires forall a, b :: Connected(E, a, b) <==> Connected(F, a, b)
    ensures Reps(E, V) == Reps(F, V)
  {
  }

  /** A set of naturals with an element `k` has a least element, at most `k`. */
  lemma {:induction false} MinOf(S: set<int>, k: int) returns (m: int)
    requires k in S && forall x :: x in S ==> 0 <= x
    ensures m in S && forall x :: x in S ==> m <= x
    decreases k
  {
    if exists x :: x in S && x < k {
      var x :| x in S && x < k;
      m := MinOf(S, x);
    } else {
      m := k;
    }
  }

  /** A labelling that is one-to-one on A maps A onto a set of the same size. */
  lemma {:induction false} InjectiveImageCard(A: set<int>, c: seq<int>)
    requires forall a :: a in A ==> 0 <= a < |c|
    requires forall a, b :: a in A && b in A && c[a] == c[b] ==> a == b
    ensures |set a | a in A :: c[a]| == |A|
    decreases |A|
  {
    if exists x :: x in A {
      var x :| x in A;
      var A' := A - {x};
      InjectiveImageCard(A', c);
      assert (set a | a in A :: c[a]) == (set a | a in A' :: c[a]) + {c[x]};
    } else {
      assert A == {};
    }
  }
}
