/** `main` without its input and output: the lines read become a sequence of
    triples, and the run returns what `kruskalAGM` would print. */
module Programa {
  import opened Graph
  import opened Extraction
  import opened Kruskal

  /** `Grafo.assign(n, ...)` followed by `leituraGrafo(Grafo, m)`
      in `main`: n empty lists, then the lines read into them. */
  method CriarGrafo(n: nat, entrada: seq<Entrada>) returns (grafo: array<seq<Vizinho>>)
    requires forall t :: t in entrada ==> EntradaInRange(t, n)
    ensures fresh(grafo) && grafo[..] == Adjacencia(n, entrada)
  {
    grafo := new seq<Vizinho>[n](_ => []);
    assert forall u :: 0 <= u < n ==> grafo[u] == [];
    LeituraGrafo(grafo, entrada);
    forall u | 0 <= u < n
      ensures grafo[..][u] == Adjacencia(n, entrada)[u]
    {
      assert [] + Incidentes(entrada, u) == Incidentes(entrada, u);
    }
  }

  /** Reads the lines into adjacency lists and extracts the edge vector from
      them in `main`: the result holds each line that is not a
      self-loop exactly once, oriented from its smaller endpoint, and nothing
      else. */
  method LerArestas(n: nat, entrada: seq<Entrada>) returns (todas: seq<Aresta>)
    requires forall t :: t in entrada ==> EntradaInRange(t, n)
    ensures multiset(todas) == multiset(Canonicas(entrada))
    ensures forall e :: e in todas ==> InRange(e, n) && e.origem < e.destino
  {
    var grafo := CriarGrafo(n, entrada);
    todas := ExtrairArestas(grafo);
    ExtractionEmitsEachEdgeOnce(n, entrada);
    CanonicasInRange(n, entrada);
    assert forall e :: e in todas ==> e in multiset(Canonicas(entrada));
  }

  /** The whole run: reading, extraction and `kruskalAGM` as `main` runs them.
      The accepted edges are input edges, acyclic, in weight order, connect
      exactly what the input connects, and number n-1 when the input graph is
      connected. */
  method ExecutarAgm(n: nat, entrada: seq<Entrada>) returns (resultado: seq<Aresta>, custoTotal: int)
    requires forall t :: t in entrada ==> EntradaInRange(t, n)
    ensures custoTotal == SumPesos(resultado)
    ensures BuiltAcyclic(resultado) && SortedByPeso(resultado)
    ensures forall j :: 0 <= j <= |resultado| ==> NoEdgeOnCycle(resultado[..j])
    ensures forall e :: e in resultado ==> e in Canonicas(entrada) && e.origem < e.destino
    ensures forall a, b :: Connected(resultado, a, b) <==> Connected(Canonicas(entrada), a, b)
    ensures n == 0 ==> resultado == []
    ensures n > 0 ==> |resultado| <= n - 1
    ensures n > 0 && (forall a, b :: 0 <= a < n && 0 <= b < n ==> Connected(Canonicas(entrada), a, b))
      ==> |resultado| == n - 1
    ensures |resultado| == n - |Reps(Canonicas(entrada), n)|
    ensures forall T :: SpanningForest(T, Canonicas(entrada)) ==> custoTotal <= SumPesos(T)
  {
    var todas := LerArestas(n, entrada);
    ghost var canonicas := Canonicas(entrada);
    assert forall e :: e in todas ==> e in multiset(canonicas);
    var arestas := new Aresta[|todas|](k requires 0 <= k < |todas| => todas[k]);
    assert arestas[..] == todas;
    ConnectedPermutation(todas, canonicas);
    SameConnectivitySameReps(todas, canonicas, n);
    resultado, custoTotal := KruskalAgm(n, arestas);
    forall T | SpanningForest(T, canonicas)
      ensures SpanningForest(T, todas)
    {
      SpanningForestPermutation(T, canonicas, todas);
    }
  }
}
