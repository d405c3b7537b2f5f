/** Why the greedy scan of edges sorted by weight builds a spanning forest of
    least total weight.

    The argument counts light edges: for every weight w, a scan of sorted
    edges accepts as many edges of weight at most w as the graph restricted
    to those edges has merges to offer, and no acyclic choice of input edges
    can hold more. A sequence that is sorted, as long as another and at every
    threshold at least as well stocked, weighs no more than it. */
module Minimality {
  import opened Graph
  import opened GreedyScan

  /** The edges of F of weight at most w, in their order in F. */
  function Leves(F: seq<Aresta>, w: int): (r: seq<Aresta>)
    ensures |r| <= |F|
  {
    if F == [] then []
    else Leves(F[..|F| - 1], w) + if F[|F| - 1].peso <= w then [F[|F| - 1]] else []
  }

  /** Leves keeps exactly the edges of weight at most w. */
  lemma {:induction false} LevesMembership(F: seq<Aresta>, w: int)
    ensures forall f :: f in Leves(F, w) <==> f in F && f.peso <= w
  {
    if F != [] {
      var G := F[..|F| - 1];
      LevesMembership(G, w);
      assert F == G + [F[|F| - 1]];
    }
  }

  lemma {:induction false} LevesAppend(A: seq<Aresta>, B: seq<Aresta>, w: int)
    ensures Leves(A + B, w) == Leves(A, w) + Leves(B, w)
    decreases |B|
  {
    if B == [] {
      assert A + B == A;
    } else {
      var B' := B[..|B| - 1];
      assert (A + B)[..|A + B| - 1] == A + B';
      LevesAppend(A, B', w);
    }
  }

  /** Nothing is dropped when every edge is light enough. */
  lemma {:induction false} LevesAll(F: seq<Aresta>, w: int)
    requires forall f :: f in F ==> f.peso <= w
    ensures Leves(F, w) == F
  {
    if F != [] {
      var G, e := F[..|F| - 1], F[|F| - 1];
      forall f | f in G
        ensures f.peso <= w
      {
        assert f in F;
      }
      LevesAll(G, w);
      assert e in F;
      assert G + [e] == F;
    }
  }

  /** In a sorted sequence no edge is heavier than the last one. */
  lemma SortedBelowLast(s: seq<Aresta>)
    requires SortedByPeso(s) && s != []
    ensures forall f :: f in s ==> f.peso <= s[|s| - 1].peso
  {
    forall f | f in s
      ensures f.peso <= s[|s| - 1].peso
    {
      var i :| 0 <= i < |s| && s[i] == f;
      if i < |s| - 1 {
        assert !CompararArestas(s[|s| - 1], s[i]);
      }
    }
  }

  /** On sorted edges, keeping the light edges commutes with the scan: the
      accepted edges of weight at most w are what the scan of the edges of
      weight at most w accepts. */
  lemma {:induction false} LevesOfGreedy(s: seq<Aresta>, w: int)
    requires SortedByPeso(s)
    ensures Leves(Greedy(s), w) == Greedy(Leves(s, w))
  {
    if s != [] {
      var p, e := s[..|s| - 1], s[|s| - 1];
      if e.peso <= w {
        SortedBelowLast(s);
        LevesAll(s, w);
        GreedyWithin(s);
        LevesAll(Greedy(s), w);
      } else {
        assert SortedByPeso(p);
        assert Leves(s, w) == Leves(p, w);
        LevesOfGreedy(p, w);
        HeavyLastDropped(p, e, w);
      }
    }
  }

  /** An edge heavier than w, accepted or not, adds nothing below w. */
  lemma HeavyLastDropped(p: seq<Aresta>, e: Aresta, w: int)
    requires e.peso > w
    ensures Leves(Greedy(p + [e]), w) == Leves(Greedy(p), w)
  {
    var G := Greedy(p);
    assert (p + [e])[..|p|] == p;
    if !Connected(G, e.origem, e.destino) {
      assert (G + [e])[..|G|] == G;
    }
  }

  /** Dropping the heavy edges keeps a sequence built without cycles. */
  lemma {:induction false} LevesAcyclic(F: seq<Aresta>, w: int)
    requires BuiltAcyclic(F)
    ensures BuiltAcyclic(Leves(F, w))
  {
    if F != [] {
      var G, e := F[..|F| - 1], F[|F| - 1];
      BuiltAcyclicPrefix(F, |F| - 1);
      LevesAcyclic(G, w);
      if e.peso <= w {
        assert !Connected(G, e.origem, e.destino);
        LevesMembership(G, w);
        if Connected(Leves(G, w), e.origem, e.destino) {
          ConnectedMono(Leves(G, w), G, e.origem, e.destino);
          assert false;
        }
        AcyclicSnoc(Leves(G, w), e);
      }
    }
  }

  /** Fewer edges leave at least as many components. */
  lemma RepsMono(V: nat, S: seq<Aresta>, T: seq<Aresta>)
    requires forall f :: f in T ==> f in S
    ensures Reps(S, V) <= Reps(T, V)
    ensures |Reps(S, V)| <= |Reps(T, V)|
  {
    forall a | a in Reps(S, V)
      ensures a in Reps(T, V)
    {
      forall b | 0 <= b < a
        ensures !Connected(T, a, b)
      {
        if Connected(T, a, b) {
          ConnectedMono(T, S, a, b);
          assert false;
        }
      }
    }
    assert Reps(T, V) == Reps(S, V) + (Reps(T, V) - Reps(S, V));
  }

  /** The scan accepts every edge of a sequence built without cycles. */
  lemma {:induction false} GreedyOfAcyclic(F: seq<Aresta>)
    requires BuiltAcyclic(F)
    ensures Greedy(F) == F
  {
    if F != [] {
      var G := F[..|F| - 1];
      BuiltAcyclicPrefix(F, |F| - 1);
      GreedyOfAcyclic(G);
      assert G + [F[|F| - 1]] == F;
    }
  }

  /** A forest over V vertices has V minus its number of components edges. */
  lemma AcyclicCount(V: nat, F: seq<Aresta>)
    requires forall e :: e in F ==> InRange(e, V)
    requires BuiltAcyclic(F)
    ensures |F| == V - |Reps(F, V)|
  {
    GreedyOfAcyclic(F);
    GreedyCount(V, F);
  }

  /** At every weight w, an acyclic choice T of edges of sorted s holds no
      more edges of weight at most w than the scan of s accepts. */
  lemma Threshold(V: nat, s: seq<Aresta>, T: seq<Aresta>, w: int)
    requires forall e :: e in s ==> InRange(e, V)
    requires SortedByPeso(s) && BuiltAcyclic(T) && forall f :: f in T ==> f in s
    ensures |Leves(T, w)| <= |Leves(Greedy(s), w)|
  {
    var sw, tw := Leves(s, w), Leves(T, w);
    LevesMembership(s, w);
    LevesMembership(T, w);
    LevesOfGreedy(s, w);
    GreedyCount(V, sw);
    LevesAcyclic(T, w);
    AcyclicCount(V, tw);
    RepsMono(V, sw, tw);
  }

  /** Where the heaviest edge of a non-empty sequence sits. */
  lemma {:induction false} HeaviestIndex(T: seq<Aresta>) returns (i: int)
    requires T != []
    ensures 0 <= i < |T| && forall f :: f in T ==> f.peso <= T[i].peso
  {
    if |T| == 1 {
      i := 0;
    } else {
      var G := T[..|T| - 1];
      assert forall f :: f in T ==> f in G || f == T[|T| - 1];
      var j := HeaviestIndex(G);
      i := if T[j].peso < T[|T| - 1].peso then |T| - 1 else j;
    }
  }

  lemma {:induction false} SumPesosAppend(A: seq<Aresta>, B: seq<Aresta>)
    ensures SumPesos(A + B) == SumPesos(A) + SumPesos(B)
    decreases |B|
  {
    if B != [] {
      var B' := B[..|B| - 1];
      assert (A + B)[..|A + B| - 1] == A + B';
      SumPesosAppend(A, B');
    } else {
      assert A + B == A;
    }
  }

  /** Taking out the i-th edge takes out its weight and, below every
      threshold it meets, one light edge. */
  lemma WithoutOne(T: seq<Aresta>, i: int)
    requires 0 <= i < |T|
    ensures SumPesos(T) == SumPesos(Without(T, i)) + T[i].peso
    ensures forall w :: |Leves(T, w)| == |Leves(Without(T, i), w)| + if T[i].peso <= w then 1 else 0
  {
    var A, B := T[..i], T[i + 1..];
    assert T == A + [T[i]] + B;
    assert Without(T, i) == A + B;
    SumPesosAppend(A + [T[i]], B);
    SumPesosAppend(A, [T[i]]);
    SumPesosAppend(A, B);
    forall w
      ensures |Leves(T, w)| == |Leves(A + B, w)| + if T[i].peso <= w then 1 else 0
    {
      LevesAppend(A + [T[i]], B, w);
      LevesAppend(A, [T[i]], w);
      LevesAppend(A, B, w);
      assert [T[i]][..0] == [];
    }
  }

  /** A sorted G as long as T, with at least as many edges as T at or below
      every weight, weighs no more than T. */
  lemma {:induction false} LighterSum(G: seq<Aresta>, T: seq<Aresta>)
    requires SortedByPeso(G) && |G| == |T|
    requires forall w :: |Leves(T, w)| <= |Leves(G, w)|
    ensures SumPesos(G) <= SumPesos(T)
    decreases |G|
  {
    if G != [] {
      var G', g := G[..|G| - 1], G[|G| - 1];
      var i := HeaviestIndex(T);
      var t, T' := T[i], Without(T, i);
      LevesAll(T, t.peso);
      assert |Leves(T, t.peso)| <= |Leves(G, t.peso)|;
      assert g.peso <= t.peso;
      WithoutOne(T, i);
      assert SortedByPeso(G');
      SortedBelowLast(G);
      forall w
        ensures |Leves(T', w)| <= |Leves(G', w)|
      {
        assert |Leves(T, w)| <= |Leves(G, w)|;
        if g.peso <= w {
          assert forall f :: f in G' ==> f in G;
          LevesAll(G', w);
        }
      }
      LighterSum(G', T');
    }
  }

  /** Kruskal's choice is a minimum spanning forest: scanning edges in
      weight order accepts edges weighing no more than any spanning forest of
      the same graph. */
  lemma KruskalIsMinimum(V: nat, s: seq<Aresta>, T: seq<Aresta>)
    requires forall e :: e in s ==> InRange(e, V)
    requires SortedByPeso(s) && SpanningForest(T, s)
    ensures SumPesos(Greedy(s)) <= SumPesos(T)
  {
    GreedySorted(s);
    GreedyCount(V, s);
    AcyclicCount(V, T);
    SameConnectivitySameReps(T, s, V);
    forall w
      ensures |Leves(T, w)| <= |Leves(Greedy(s), w)|
    {
      Threshold(V, s, T, w);
    }
    LighterSum(Greedy(s), T);
  }
}
