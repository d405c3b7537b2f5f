/** The choice the selection loop of `kruskalAGM` makes, stated from
    connectivity alone: `Greedy` accepts an edge exactly when the edges
    accepted before it do not already connect its endpoints. Its lemmas say
    what the accepted edges are (acyclic, spanning the same components, in
    weight order, V minus the number of components of them) and how the
    union-find labels follow them. */
module GreedyScan {
  import opened Graph
  import opened Forest

  /** The edges the greedy scan of `s` accepts, in the order it accepts them. */
  ghost function Greedy(s: seq<Aresta>): (r: seq<Aresta>)
  {
    if s == [] then []
    else
      var chosen := Greedy(s[..|s| - 1]);
      var e := s[|s| - 1];
      if Connected(chosen, e.origem, e.destino) then chosen else chosen + [e]
  }

  /** One more step of the scan: edge s[k] is accepted exactly when the edges
      accepted from s[..k] do not connect its endpoints. */
  lemma GreedyStep(s: seq<Aresta>, k: int)
    requires 0 <= k < |s|
    ensures Greedy(s[..k + 1]) ==
      if Connected(Greedy(s[..k]), s[k].origem, s[k].destino) then Greedy(s[..k])
      else Greedy(s[..k]) + [s[k]]
  {
    assert s[..k + 1][..k] == s[..k];
  }

  /** Every accepted edge is one of the scanned edges. */
  lemma {:induction false} GreedyWithin(s: seq<Aresta>)
    ensures forall f :: f in Greedy(s) ==> f in s
  {
    if s != [] {
      GreedyWithin(s[..|s| - 1]);
    }
  }

  /** The accepted edges never close a cycle, at any prefix. */
  lemma {:induction false} GreedyBuiltAcyclic(s: seq<Aresta>)
    ensures BuiltAcyclic(Greedy(s))
  {
    if s != [] {
      var F, e := Greedy(s[..|s| - 1]), s[|s| - 1];
      GreedyBuiltAcyclic(s[..|s| - 1]);
      if !Connected(F, e.origem, e.destino) {
        AcyclicSnoc(F, e);
      }
    }
  }

  /** Every scanned edge ends up with its endpoints connected by the accepted ones. */
  lemma {:induction false} GreedySpans(s: seq<Aresta>)
    ensures forall e :: e in s ==> Connected(Greedy(s), e.origem, e.destino)
  {
    if s != [] {
      var p, F, last := s[..|s| - 1], Greedy(s[..|s| - 1]), s[|s| - 1];
      GreedySpans(p);
      var G := Greedy(s);
      assert forall f :: f in F ==> f in G;
      forall e | e in s
        ensures Connected(G, e.origem, e.destino)
      {
        if e in p {
          ConnectedMono(F, G, e.origem, e.destino);
        } else {
          assert e == last;
          if !Connected(F, e.origem, e.destino) {
            EdgeConnects(G, e);
          } else {
            ConnectedMono(F, G, e.origem, e.destino);
          }
        }
      }
    }
  }

  /** The accepted edges connect exactly the pairs the scanned edges connect. */
  lemma GreedySameComponents(s: seq<Aresta>, a: int, b: int)
    ensures Connected(Greedy(s), a, b) <==> Connected(s, a, b)
  {
    GreedyWithin(s);
    if Connected(Greedy(s), a, b) {
      ConnectedMono(Greedy(s), s, a, b);
    }
    if Connected(s, a, b) {
      GreedySpans(s);
      var w :| IsWalk(s, w) && w[0] == a && w[|w| - 1] == b;
      ConnectedRefine(s, Greedy(s), w);
    }
  }

  /** Scanning sorted edges accepts them in non-decreasing weight order. */
  lemma {:induction false} GreedySorted(s: seq<Aresta>)
    requires SortedByPeso(s)
    ensures SortedByPeso(Greedy(s))
  {
    if s != [] {
      var p, e := s[..|s| - 1], s[|s| - 1];
      assert SortedByPeso(p);
      GreedySorted(p);
      GreedyWithin(p);
      var F := Greedy(p);
      if !Connected(F, e.origem, e.destino) {
        var G := F + [e];
        forall i, j | 0 <= i < j < |G|
          ensures !CompararArestas(G[j], G[i])
        {
          if j == |F| {
            assert G[i] in p;
          }
        }
      }
    }
  }

  /** Labels `c` follow the connectivity of F: two vertices carry the same
      label exactly when F connects them. */
  ghost predicate LabelsFollow(F: seq<Aresta>, c: seq<int>)
  {
    forall a, b :: 0 <= a < |c| && 0 <= b < |c| ==> (c[a] == c[b] <==> Connected(F, a, b))
  }

  /** Accepting edge e whose endpoints lie in different sets, and merging the
      set of its origin into the set of its destination, keeps the labels in
      step with connectivity: equal labels exactly for connected pairs. */
  lemma AcceptKeepsPartition(F: seq<Aresta>, e: Aresta, before: seq<int>, after: seq<int>)
    requires InRange(e, |before|) && |after| == |before|
    requires LabelsFollow(F, before)
    requires before[e.origem] != before[e.destino]
    requires after == Merge(before, before[e.origem], before[e.destino])
    ensures LabelsFollow(F + [e], after)
  {
    var u, v := e.origem, e.destino;
    var Fe := F + [e];
    assert forall f :: f in F ==> f in Fe;
    EdgeConnects(Fe, e);
    forall a, b | 0 <= a < |before| && 0 <= b < |before|
      ensures after[a] == after[b] <==> Connected(Fe, a, b)
    {
      if Connected(Fe, a, b) {
        ConnectedSnoc(F, e, a, b);
        if Connected(F, a, b) {
          assert before[a] == before[b];
        } else if Connected(F, a, u) && Connected(F, v, b) {
          assert before[a] == before[u] && before[v] == before[b];
        } else {
          assert before[a] == before[v] && before[u] == before[b];
        }
      }
      if after[a] == after[b] {
        if before[a] == before[b] {
          ConnectedMono(F, Fe, a, b);
        } else if before[a] == before[u] {
          assert before[b] == before[v];
          ConnectedMono(F, Fe, a, u);
          ConnectedMono(F, Fe, v, b);
          ConnectedTrans(Fe, a, u, v);
          ConnectedTrans(Fe, a, v, b);
        } else {
          assert before[b] == before[u] && before[a] == before[v];
          ConnectedMono(F, Fe, a, v);
          ConnectedMono(F, Fe, u, b);
          ConnectedTrans(Fe, a, v, u);
          ConnectedTrans(Fe, a, u, b);
        }
      }
    }
  }

  /** When the labels are the roots and follow the connectivity of F, the
      roots are as many as the components of F: each root labels exactly one
      component, whose least vertex carries it. */
  lemma RootsCountComponents(p: seq<int>, rk: seq<nat>, F: seq<Aresta>)
    requires IsForest(p, rk) && LabelsFollow(F, Classes(p, rk))
    ensures |RootSet(p)| == |Reps(F, |p|)|
  {
    var c := Classes(p, rk);
    var R := Reps(F, |p|);
    forall a, b | a in R && b in R && a != b
      ensures c[a] != c[b]
    {
      if a < b {
        assert !Connected(F, b, a);
      } else {
        assert !Connected(F, a, b);
      }
    }
    InjectiveImageCard(R, c);
    var image := set a | a in R :: c[a];
    forall r | r in RootSet(p)
      ensures r in image
    {
      var S := set a | 0 <= a < |p| && c[a] == r;
      assert r in S;
      var m := MinOf(S, r);
      forall b | 0 <= b < m
        ensures !Connected(F, m, b)
      {
        assert b !in S;
        assert c[b] != c[m];
      }
      assert m in R;
    }
    assert image == RootSet(p);
  }

  /** A union-find state that the scan of `s` could leave behind: the
      labels are the roots, they follow the connectivity of the accepted edges,
      and each accepted edge has removed exactly one root. Built by linking
      the two roots of every accepted edge, as `unir` does. */
  lemma {:induction false} GreedyState(V: nat, s: seq<Aresta>) returns (p: seq<int>, rk: seq<nat>)
    requires forall e :: e in s ==> InRange(e, V)
    ensures IsForest(p, rk) && |p| == V
    ensures LabelsFollow(Greedy(s), Classes(p, rk))
    ensures |Greedy(s)| + |RootSet(p)| == V
  {
    if s == [] {
      p, rk := Identity(V), seq(V, _ => 0);
      IdentityRoots(V);
      forall a, b
        ensures Connected([], a, b) <==> a == b
      {
        ConnectedEmpty(a, b);
      }
    } else {
      var q, e := s[..|s| - 1], s[|s| - 1];
      assert forall f :: f in q ==> f in s;
      assert e in s;
      p, rk := GreedyState(V, q);
      var F, c := Greedy(q), Classes(p, rk);
      if !Connected(F, e.origem, e.destino) {
        var x, y := c[e.origem], c[e.destino];
        assert x in RootSet(p);
        LinkRoots(p, rk, x, y);
        AcceptKeepsPartition(F, e, c, Merge(c, x, y));
        p, rk := p[x := y], LinkRank(rk, x, y);
      }
    }
  }

  /** The scan of `s` accepts V minus the number of connected components of
      `s` edges: one per merge of two components. */
  lemma GreedyCount(V: nat, s: seq<Aresta>)
    requires forall e :: e in s ==> InRange(e, V)
    ensures |Greedy(s)| == V - |Reps(s, V)|
  {
    var p, rk := GreedyState(V, s);
    RootsCountComponents(p, rk, Greedy(s));
    forall a, b
      ensures Connected(Greedy(s), a, b) <==> Connected(s, a, b)
    {
      GreedySameComponents(s, a, b);
    }
    SameConnectivitySameReps(Greedy(s), s, V);
  }

  /** What the component count says about the number of accepted edges: none
      without vertices, at most V - 1, and exactly V - 1 when the scanned
      edges connect every pair of vertices. */
  lemma ScanCount(V: nat, s: seq<Aresta>)
    requires forall e :: e in s ==> InRange(e, V)
    ensures V == 0 ==> Greedy(s) == []
    ensures V > 0 ==> |Greedy(s)| <= V - 1
    ensures V > 0 && (forall a, b :: 0 <= a < V && 0 <= b < V ==> Connected(s, a, b))
      ==> |Greedy(s)| == V - 1
    ensures |Greedy(s)| == V - |Reps(s, V)|
  {
    GreedyCount(V, s);
    if V > 0 {
      assert 0 in Reps(s, V);
      if forall a, b :: 0 <= a < V && 0 <= b < V ==> Connected(s, a, b) {
        forall a | a in Reps(s, V)
          ensures a == 0
        {
          assert Connected(s, a, 0);
        }
        assert Reps(s, V) == {0};
      }
    }
  }
}
