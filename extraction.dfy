/** Building the adjacency lists (`leituraGrafo`) and extracting the edge vector
    from them (`main`): every input line is entered in the lists of both of its
    endpoints, and an edge is emitted only from the list of its smaller endpoint,
    so each undirected edge comes out once, oriented from smaller to larger. */
module Extraction {
  import opened Graph

  /** One entry of an adjacency list: a neighbour and the weight of the edge to it. */
  datatype Vizinho = Vizinho(vertice: int, peso: int)

  /** One input line `a b c`: an undirected edge between a and b of weight c. */
  datatype Entrada = Entrada(a: int, b: int, c: int)

  predicate EntradaInRange(t: Entrada, n: int)
  {
    0 <= t.a < n && 0 <= t.b < n
  }

  /** What line t appends to the list of vertex u: (b, c) when u is a, then
      (a, c) when u is b. A self-loop appends both to the same list. */
  function Contribui(t: Entrada, u: int): (r: seq<Vizinho>)
  {
    (if t.a == u then [Vizinho(t.b, t.c)] else []) + (if t.b == u then [Vizinho(t.a, t.c)] else [])
  }

  /** The list of vertex u after reading the lines of `entrada` in order. */
  function Incidentes(entrada: seq<Entrada>, u: int): (r: seq<Vizinho>)
  {
    if entrada == [] then []
    else Incidentes(entrada[..|entrada| - 1], u) + Contribui(entrada[|entrada| - 1], u)
  }

  /** The adjacency lists of n vertices after reading `entrada` into empty lists. */
  function Adjacencia(n: nat, entrada: seq<Entrada>): (g: seq<seq<Vizinho>>)
    ensures |g| == n && forall u :: 0 <= u < n ==> g[u] == Incidentes(entrada, u)
  {
    seq(n, u => Incidentes(entrada, u))
  }

  /** An entry (v, w) is in the list of u exactly when some line joins u and v
      with weight w. */
  lemma {:induction false} IncidentesMembership(entrada: seq<Entrada>, u: int, x: Vizinho)
    ensures x in Incidentes(entrada, u) <==>
      exists t :: t in entrada && t.c == x.peso &&
        ((t.a == u && t.b == x.vertice) || (t.b == u && t.a == x.vertice))
  {
    if entrada != [] {
      var p, t := entrada[..|entrada| - 1], entrada[|entrada| - 1];
      IncidentesMembership(p, u, x);
      assert entrada == p + [t];
      if x in Incidentes(entrada, u) && x !in Incidentes(p, u) {
        assert x in Contribui(t, u);
      }
    }
  }

  /** `leituraGrafo(G, m)` without its reads: each line (a, b, c) appends
      (b, c) to the list of a and (a, c) to the list of b. */
  method LeituraGrafo(grafo: array<seq<Vizinho>>, entrada: seq<Entrada>)
    requires forall t :: t in entrada ==> EntradaInRange(t, grafo.Length)
    modifies grafo
    ensures forall u :: 0 <= u < grafo.Length ==> grafo[u] == old(grafo[u]) + Incidentes(entrada, u)
  {
    for k := 0 to |entrada|
      invariant forall u :: 0 <= u < grafo.Length ==>
        grafo[u] == old(grafo[u]) + Incidentes(entrada[..k], u)
    {
      var t := entrada[k];
      assert t in entrada;
      assert entrada[..k + 1][..k] == entrada[..k];
      grafo[t.a] := grafo[t.a] + [Vizinho(t.b, t.c)];
      grafo[t.b] := grafo[t.b] + [Vizinho(t.a, t.c)];
    }
    assert entrada[..|entrada|] == entrada;
  }

  /** The edges emitted while scanning the list of vertex u: one per entry
      (v, w) with u < v. */
  function DeVertice(u: int, lista: seq<Vizinho>): (r: seq<Aresta>)
  {
    if lista == [] then []
    else
      var x := lista[|lista| - 1];
      DeVertice(u, lista[..|lista| - 1]) + (if u < x.vertice then [Aresta(u, x.vertice, x.peso)] else [])
  }

  /** The edges emitted from the lists of vertices 0 .. n-1, in scan order. */
  function Emitidas(g: seq<seq<Vizinho>>, n: nat): (r: seq<Aresta>)
    requires n <= |g|
  {
    if n == 0 then [] else Emitidas(g, n - 1) + DeVertice(n - 1, g[n - 1])
  }

  /** Every emitted edge starts at a scanned vertex and points to a larger one,
      so no self-loop is emitted. */
  lemma {:induction false} EmitidasOriented(g: seq<seq<Vizinho>>, n: nat)
    requires n <= |g|
    ensures forall e :: e in Emitidas(g, n) ==> 0 <= e.origem < n && e.origem < e.destino
  {
    if n > 0 {
      EmitidasOriented(g, n - 1);
      DeVerticeOriented(n - 1, g[n - 1]);
    }
  }

  lemma {:induction false} DeVerticeOriented(u: int, lista: seq<Vizinho>)
    ensures forall e :: e in DeVertice(u, lista) ==> e.origem == u < e.destino
  {
    if lista != [] {
      DeVerticeOriented(u, lista[..|lista| - 1]);
    }
  }

  /** The edge extraction loop of `main`. */
  method ExtrairArestas(grafo: array<seq<Vizinho>>) returns (todas: seq<Aresta>)
    ensures todas == Emitidas(grafo[..], grafo.Length)
    ensures forall e :: e in todas ==> e.origem < e.destino
  {
    todas := [];
    for u := 0 to grafo.Length
      invariant todas == Emitidas(grafo[..], u)
    {
      var lista := grafo[u];
      for j := 0 to |lista|
        invariant todas == Emitidas(grafo[..], u) + DeVertice(u, lista[..j])
      {
        var par := lista[j];
        assert lista[..j + 1][..j] == lista[..j];
        if u < par.vertice {
          todas := todas + [Aresta(u, par.vertice, par.peso)];
        }
      }
      assert lista[..|lista|] == lista;
    }
    EmitidasOriented(grafo[..], grafo.Length);
  }

  function Min(x: int, y: int): (r: int)
  {
    if x < y then x else y
  }

  /** Line t as the one edge it should yield: oriented from its smaller to its
      larger endpoint; nothing for a self-loop. */
  function Canonica(t: Entrada): (r: seq<Aresta>)
  {
    if t.a < t.b then [Aresta(t.a, t.b, t.c)]
    else if t.b < t.a then [Aresta(t.b, t.a, t.c)]
    else []
  }

  function Canonicas(entrada: seq<Entrada>): (r: seq<Aresta>)
  {
    if entrada == [] then [] else Canonicas(entrada[..|entrada| - 1]) + Canonica(entrada[|entrada| - 1])
  }

  lemma {:induction false} DeVerticeAppend(u: int, xs: seq<Vizinho>, ys: seq<Vizinho>)
    ensures DeVertice(u, xs + ys) == DeVertice(u, xs) + DeVertice(u, ys)
    decreases |ys|
  {
    if ys != [] {
      var ys', y := ys[..|ys| - 1], ys[|ys| - 1];
      var zs := xs + ys;
      assert zs[..|zs| - 1] == xs + ys' && zs[|zs| - 1] == y;
      DeVerticeAppend(u, xs, ys');
      var tail := if u < y.vertice then [Aresta(u, y.vertice, y.peso)] else [];
      assert DeVertice(u, zs) == DeVertice(u, xs + ys') + tail;
      assert DeVertice(u, ys) == DeVertice(u, ys') + tail;
    } else {
      assert xs + ys == xs;
    }
  }

  /** The lists of g and h concatenated vertex by vertex. */
  function Juntar(g: seq<seq<Vizinho>>, h: seq<seq<Vizinho>>): (gh: seq<seq<Vizinho>>)
    requires |g| == |h|
    ensures |gh| == |g| && forall u :: 0 <= u < |g| ==> gh[u] == g[u] + h[u]
  {
    seq(|g|, u requires 0 <= u < |g| => g[u] + h[u])
  }

  /** How many times `e` occurs in `s`. */
  function Ocorrencias(s: seq<Aresta>, e: Aresta): (r: nat)
  {
    if s == [] then 0
    else Ocorrencias(s[..|s| - 1], e) + (if s[|s| - 1] == e then 1 else 0)
  }

  lemma {:induction false} OcorrenciasAppend(xs: seq<Aresta>, ys: seq<Aresta>, e: Aresta)
    ensures Ocorrencias(xs + ys, e) == Ocorrencias(xs, e) + Ocorrencias(ys, e)
    decreases |ys|
  {
    if ys == [] {
      assert xs + ys == xs;
    } else {
      var zs := xs + ys;
      assert zs[..|zs| - 1] == xs + ys[..|ys| - 1];
      OcorrenciasAppend(xs, ys[..|ys| - 1], e);
    }
  }

  /** Counting occurrences is the multiplicity in the multiset of the sequence. */
  lemma {:induction false} OcorrenciasIsMultiplicity(s: seq<Aresta>, e: Aresta)
    ensures Ocorrencias(s, e) == multiset(s)[e]
  {
    if s != [] {
      var p := s[..|s| - 1];
      OcorrenciasIsMultiplicity(p, e);
      assert s == p + [s[|s| - 1]];
    }
  }

  /** Emission distributes over lists that are concatenated vertex by vertex. */
  lemma {:induction false} EmitidasSplit(g: seq<seq<Vizinho>>, h: seq<seq<Vizinho>>, n: nat, e: Aresta)
    requires |g| == |h| && n <= |g|
    ensures Ocorrencias(Emitidas(Juntar(g, h), n), e) ==
      Ocorrencias(Emitidas(g, n), e) + Ocorrencias(Emitidas(h, n), e)
  {
    if n > 0 {
      var gh := Juntar(g, h);
      var l := gh[n - 1];
      assert l == g[n - 1] + h[n - 1];
      DeVerticeAppend(n - 1, g[n - 1], h[n - 1]);
      var dg, dh := DeVertice(n - 1, g[n - 1]), DeVertice(n - 1, h[n - 1]);
      assert DeVertice(n - 1, l) == dg + dh;
      EmitidasSplit(g, h, n - 1, e);
      OcorrenciasAppend(Emitidas(gh, n - 1), dg + dh, e);
      OcorrenciasAppend(dg, dh, e);
      OcorrenciasAppend(Emitidas(g, n - 1), dg, e);
      OcorrenciasAppend(Emitidas(h, n - 1), dh, e);
    }
  }

  /** The edges the list a single line gives vertex u emits: its canonical
      edge when u is the smaller endpoint, nothing otherwise. */
  lemma DeVerticeOfLine(t: Entrada, u: int)
    ensures DeVertice(u, Contribui(t, u)) ==
      (if t.a == u && u < t.b then [Aresta(u, t.b, t.c)] else []) +
      (if t.b == u && u < t.a then [Aresta(u, t.a, t.c)] else [])
  {
    var first := if t.a == u then [Vizinho(t.b, t.c)] else [];
    var second := if t.b == u then [Vizinho(t.a, t.c)] else [];
    DeVerticeAppend(u, first, second);
    if t.a == u {
      assert first[..0] == [];
    }
    if t.b == u {
      assert second[..0] == [];
    }
  }

  /** The lists a single line contributes to, over vertices 0 .. k-1, emit its
      canonical edge once, provided its smaller endpoint is below k. */
  lemma {:induction false} EmitidasOfLine(t: Entrada, h: seq<seq<Vizinho>>, k: nat)
    requires 0 <= t.a && 0 <= t.b
    requires k <= |h| && forall u :: 0 <= u < |h| ==> h[u] == Contribui(t, u)
    ensures Emitidas(h, k) == if Min(t.a, t.b) < k then Canonica(t) else []
  {
    if k > 0 {
      var u := k - 1;
      var d1 := if t.a == u && u < t.b then [Aresta(u, t.b, t.c)] else [];
      var d2 := if t.b == u && u < t.a then [Aresta(u, t.a, t.c)] else [];
      DeVerticeOfLine(t, u);
      assert Emitidas(h, k) == Emitidas(h, u) + (d1 + d2);
      EmitidasOfLine(t, h, u);
      if Min(t.a, t.b) == u {
        assert d1 + d2 == Canonica(t);
      } else {
        assert d1 + d2 == [];
      }
    }
  }

  /** Reading the lines into adjacency lists and extracting edges yields every
      line that is not a self-loop exactly once, as its canonical edge, and
      nothing else. */
  lemma ExtractionEmitsEachEdgeOnce(n: nat, entrada: seq<Entrada>)
    requires forall t :: t in entrada ==> EntradaInRange(t, n)
    ensures multiset(Emitidas(Adjacencia(n, entrada), n)) == multiset(Canonicas(entrada))
  {
    var emitidas, canonicas := Emitidas(Adjacencia(n, entrada), n), Canonicas(entrada);
    forall e
      ensures multiset(emitidas)[e] == multiset(canonicas)[e]
    {
      ExtractionCounts(n, entrada, e);
      OcorrenciasIsMultiplicity(emitidas, e);
      OcorrenciasIsMultiplicity(canonicas, e);
    }
  }

  lemma {:induction false} ExtractionCounts(n: nat, entrada: seq<Entrada>, e: Aresta)
    requires forall t :: t in entrada ==> EntradaInRange(t, n)
    ensures Ocorrencias(Emitidas(Adjacencia(n, entrada), n), e) == Ocorrencias(Canonicas(entrada), e)
  {
    if entrada == [] {
      EmitidasOfEmpty(Adjacencia(n, entrada), n);
    } else {
      var p, t := entrada[..|entrada| - 1], entrada[|entrada| - 1];
      assert t in entrada;
      assert forall x :: x in p ==> x in entrada;
      assert p + [t] == entrada;
      AdjacenciaSnoc(n, p, t, e);
      ExtractionCounts(n, p, e);
      OcorrenciasAppend(Canonicas(p), Canonica(t), e);
    }
  }

  /** Reading one more in-range line adds exactly its canonical edge to the
      emitted edges. */
  lemma AdjacenciaSnoc(n: nat, p: seq<Entrada>, t: Entrada, e: Aresta)
    requires EntradaInRange(t, n)
    ensures Ocorrencias(Emitidas(Adjacencia(n, p + [t]), n), e) ==
      Ocorrencias(Emitidas(Adjacencia(n, p), n), e) + Ocorrencias(Canonica(t), e)
  {
    var h := seq(n, u => Contribui(t, u));
    EmitidasOfLine(t, h, n);
    var g, gh := Adjacencia(n, p), Adjacencia(n, p + [t]);
    forall u | 0 <= u < n
      ensures gh[u] == Juntar(g, h)[u]
    {
      assert (p + [t])[..|p + [t]| - 1] == p;
    }
    assert gh == Juntar(g, h);
    EmitidasSplit(g, h, n, e);
  }

  lemma {:induction false} EmitidasOfEmpty(g: seq<seq<Vizinho>>, k: nat)
    requires k <= |g| && forall u :: 0 <= u < |g| ==> g[u] == []
    ensures Emitidas(g, k) == []
  {
    if k > 0 {
      EmitidasOfEmpty(g, k - 1);
    }
  }

  /** The canonical edges of in-range lines stay in range. */
  lemma {:induction false} CanonicasInRange(n: nat, entrada: seq<Entrada>)
    requires forall t :: t in entrada ==> EntradaInRange(t, n)
    ensures forall e :: e in Canonicas(entrada) ==> InRange(e, n) && e.origem < e.destino
  {
    if entrada != [] {
      assert entrada[|entrada| - 1] in entrada;
      CanonicasInRange(n, entrada[..|entrada| - 1]);
    }
  }
}
