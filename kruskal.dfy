/** `kruskalAGM`: sort the edges by weight, then scan them once, accepting an
    edge exactly when the union-find structure puts its endpoints in different
    sets, appending it to `resultado`, adding its weight to `custo_total` and
    uniting the two sets.

    The scan is specified by `Greedy` (module GreedyScan), which makes the
    same choice from connectivity alone: an edge is accepted exactly when the
    edges accepted before it do not already connect its endpoints. Module
    Minimality proves that its total weight is the least of any spanning
    forest. */
module Kruskal {
  import opened Graph
  import opened Forest
  import opened UnionFind
  import opened Sorting
  import opened GreedyScan
  import opened Minimality

  /** One iteration of the selection loop of `kruskalAGM`: find the sets
      of both endpoints; when they differ, append the edge, add its weight and
      unite the two sets. Stated against the accepted edges so far: the edge is
      appended exactly when they do not already connect its endpoints. */
  method Considerar(ds: DisjointSet, aresta: Aresta, resultado: seq<Aresta>, custoTotal: int)
    returns (resultado': seq<Aresta>, custoTotal': int)
    requires ds.Valid() && InRange(aresta, ds.pai.Length)
    requires LabelsFollow(resultado, Classes(ds.pai[..], ds.rank))
    requires custoTotal == SumPesos(resultado)
    modifies ds, ds.pai
    ensures ds.Valid() && ds.pai == old(ds.pai)
    ensures resultado' ==
      if Connected(resultado, aresta.origem, aresta.destino) then resultado else resultado + [aresta]
    ensures custoTotal' == SumPesos(resultado')
    ensures LabelsFollow(resultado', Classes(ds.pai[..], ds.rank))
    ensures |resultado'| + |RootSet(ds.pai[..])| == |resultado| + old(|RootSet(ds.pai[..])|)
  {
    ghost var labels := Classes(ds.pai[..], ds.rank);
    var u := aresta.origem;
    var v := aresta.destino;
    resultado', custoTotal' := resultado, custoTotal;

    var setU := ds.Encontrar(u);
    var setV := ds.Encontrar(v);
    assert setU == labels[u] && setV == labels[v];

    if setU != setV {
      resultado', custoTotal' := Aceitar(ds, aresta, resultado, custoTotal);
    }
  }

  /** The accepting branch of one iteration, once `encontrar` has given two
      different roots: append the edge, add its weight and unite the sets. */
  method Aceitar(ds: DisjointSet, aresta: Aresta, resultado: seq<Aresta>, custoTotal: int)
    returns (resultado': seq<Aresta>, custoTotal': int)
    requires ds.Valid() && InRange(aresta, ds.pai.Length)
    requires LabelsFollow(resultado, Classes(ds.pai[..], ds.rank))
    requires ds.RootOf(aresta.origem) != ds.RootOf(aresta.destino)
    requires custoTotal == SumPesos(resultado)
    modifies ds, ds.pai
    ensures ds.Valid() && ds.pai == old(ds.pai)
    ensures resultado' == resultado + [aresta]
    ensures custoTotal' == SumPesos(resultado')
    ensures LabelsFollow(resultado', Classes(ds.pai[..], ds.rank))
    ensures |RootSet(ds.pai[..])| + 1 == old(|RootSet(ds.pai[..])|)
  {
    ghost var labels := Classes(ds.pai[..], ds.rank);
    ghost var roots := RootSet(ds.pai[..]);
    assert ds.RootOf(aresta.origem) in roots;
    SumPesosSnoc(resultado, aresta);
    resultado' := resultado + [aresta];
    custoTotal' := custoTotal + aresta.peso;
    ds.Unir(aresta.origem, aresta.destino);
    AcceptKeepsPartition(resultado, aresta, labels, Classes(ds.pai[..], ds.rank));
  }

  /** The selection loop of `kruskalAGM`: one union-find
      structure over V vertices, one pass over the edges in array order. */
  method Selecionar(V: nat, arestas: array<Aresta>) returns (resultado: seq<Aresta>, custoTotal: int)
    requires forall e :: e in arestas[..] ==> InRange(e, V)
    ensures resultado == Greedy(arestas[..])
    ensures custoTotal == SumPesos(resultado)
    ensures V == 0 ==> resultado == []
    ensures V > 0 ==> |resultado| <= V - 1
    ensures V > 0 && (forall a, b :: 0 <= a < V && 0 <= b < V ==> Connected(arestas[..], a, b))
      ==> |resultado| == V - 1
    ensures |resultado| == V - |Reps(arestas[..], V)|
  {
    ghost var s := arestas[..];
    resultado := [];
    custoTotal := 0;

    var ds := new DisjointSet(V);
    forall a, b ensures Connected([], a, b) <==> a == b {
      ConnectedEmpty(a, b);
    }
    assert LabelsFollow([], Classes(ds.pai[..], ds.rank));

    for k := 0 to arestas.Length
      invariant ds.Valid() && ds.pai.Length == V && fresh(ds) && fresh(ds.pai)
      invariant resultado == Greedy(s[..k])
      invariant custoTotal == SumPesos(resultado)
      invariant LabelsFollow(resultado, Classes(ds.pai[..], ds.rank))
      invariant |resultado| + |RootSet(ds.pai[..])| == V
    {
      assert arestas[k] in s;
      GreedyStep(s, k);
      resultado, custoTotal := Considerar(ds, arestas[k], resultado, custoTotal);
    }
    assert s[..arestas.Length] == s;
    ScanCount(V, s);
  }

  /** `kruskalAGM(V, arestas)` without its printing: sorts `arestas` in place,
      then runs the selection loop; returns the accepted edges `resultado` and
      their total weight `custo_total`. */
  method KruskalAgm(V: nat, arestas: array<Aresta>) returns (resultado: seq<Aresta>, custoTotal: int)
    requires forall e :: e in arestas[..] ==> InRange(e, V)
    modifies arestas
    ensures SortedByPeso(arestas[..]) && multiset(arestas[..]) == old(multiset(arestas[..]))
    ensures resultado == Greedy(arestas[..])
    ensures custoTotal == SumPesos(resultado)
    ensures BuiltAcyclic(resultado) && SortedByPeso(resultado)
    ensures forall j :: 0 <= j <= |resultado| ==> NoEdgeOnCycle(resultado[..j])
    ensures forall f :: f in resultado ==> f in old(arestas[..])
    ensures forall a, b :: Connected(resultado, a, b) <==> Connected(old(arestas[..]), a, b)
    ensures V == 0 ==> resultado == []
    ensures V > 0 ==> |resultado| <= V - 1
    ensures V > 0 && (forall a, b :: 0 <= a < V && 0 <= b < V ==> Connected(old(arestas[..]), a, b))
      ==> |resultado| == V - 1
    ensures |resultado| == V - |Reps(old(arestas[..]), V)|
    ensures forall T :: SpanningForest(T, old(arestas[..])) ==> custoTotal <= SumPesos(T)
  {
    ghost var input := arestas[..];
    Ordenar(arestas);
    ghost var s := arestas[..];
    assert forall e :: e in s <==> e in multiset(s);
    assert forall e :: e in input <==> e in multiset(input);
    resultado, custoTotal := Selecionar(V, arestas);

    GreedyBuiltAcyclic(s);
    BuiltAcyclicHasNoCycle(resultado);
    GreedySorted(s);
    GreedyWithin(s);
    ConnectedPermutation(s, input);
    forall a, b
      ensures Connected(resultado, a, b) <==> Connected(input, a, b)
    {
      GreedySameComponents(s, a, b);
    }
    SameConnectivitySameReps(s, input, V);
    forall T | SpanningForest(T, input)
      ensures SumPesos(resultado) <= SumPesos(T)
    {
      SpanningForestPermutation(T, input, s);
      KruskalIsMinimum(V, s, T);
    }
  }
}
