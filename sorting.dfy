/** `std::sort(arestas.begin(), arestas.end(), compararArestas)`: the edge
    vector is sorted in place by weight. Any correct sort will do; this one is
    insertion sort by adjacent swaps. Ties may end up in any order. */
module Sorting {
  import opened Graph

  method Swap(a: array<Aresta>, i: int, j: int)
    requires 0 <= i < a.Length && 0 <= j < a.Length
    modifies a
    ensures a[..] == old(a[..])[i := old(a[j])][j := old(a[i])]
    ensures multiset(a[..]) == old(multiset(a[..]))
  {
    a[i], a[j] := a[j], a[i];
  }

  /** Sorts `a` in place: afterwards it is a permutation of what it held and
      no edge is strictly lighter than one before it. */
  method Ordenar(a: array<Aresta>)
    modifies a
    ensures SortedByPeso(a[..])
    ensures multiset(a[..]) == old(multiset(a[..]))
  {
    for i := 0 to a.Length
      invariant SortedByPeso(a[..i])
      invariant multiset(a[..]) == old(multiset(a[..]))
    {
      Inserir(a, i);
    }
    assert a[..a.Length] == a[..];
  }

  /** Moves `a[i]` down into the sorted prefix `a[..i]`, by swaps with each
      strictly heavier neighbour, so that `a[..i + 1]` is sorted. */
  method Inserir(a: array<Aresta>, i: int)
    requires 0 <= i < a.Length && SortedByPeso(a[..i])
    modifies a
    ensures SortedByPeso(a[..i + 1])
    ensures multiset(a[..]) == old(multiset(a[..]))
    ensures a[i + 1..] == old(a[i + 1..])
  {
    var j := i;
    while j > 0 && CompararArestas(a[j], a[j - 1])
      invariant 0 <= j <= i
      invariant forall x, y :: 0 <= x < y <= i && x != j && y != j ==> a[x].peso <= a[y].peso
      invariant forall y :: j < y <= i ==> a[j].peso <= a[y].peso
      invariant multiset(a[..]) == old(multiset(a[..]))
      invariant a[i + 1..] == old(a[i + 1..])
    {
      Swap(a, j - 1, j);
      j := j - 1;
    }
  }
}
