/** The observable contract of the `heapq` frontier: a bag of
    `(prioridad, (fila, columna))` entries; push adds one entry and pop
    removes an entry that is least under Python's tuple order. */
module Frontera {
  import opened Mapas

  datatype Entrada = Entrada(prioridad: int, pos: Pos)

  /** Python's `<=` on `(prioridad, (fila, columna))`: priority first,
      ties broken by row, then by column. */
  predicate Precede(a: Entrada, b: Entrada) {
    || a.prioridad < b.prioridad
    || (a.prioridad == b.prioridad && a.pos.fila < b.pos.fila)
    || (a.prioridad == b.prioridad && a.pos.fila == b.pos.fila && a.pos.columna <= b.pos.columna)
  }

  /** `e` is what `heappop` may return from `m`. */
  predicate EsMinimo(e: Entrada, m: multiset<Entrada>) {
    e in m && forall f :: f in m ==> Precede(e, f)
  }

  lemma PrecedeOrdenTotal(a: Entrada, b: Entrada, c: Entrada)
    ensures Precede(a, a)
    ensures Precede(a, b) || Precede(b, a)
    ensures Precede(a, b) && Precede(b, a) ==> a == b
    ensures Precede(a, b) && Precede(b, c) ==> Precede(a, c)
  {
  }

  /** Every non-empty frontier has a least entry, so `heappop` is defined
      whenever the search loop pops. */
  lemma {:induction false} ExisteMinimo(m: multiset<Entrada>)
    requires m != multiset{}
    ensures exists e :: EsMinimo(e, m)
  {
    var x :| x in m;
    var resto := m - multiset{x};
    forall f | f in m && f != x ensures f in resto {
      assert resto[f] == m[f];
    }
    if resto == multiset{} {
      assert EsMinimo(x, m);
    } else {
      ExisteMinimo(resto);
      var y :| EsMinimo(y, resto);
      if Precede(x, y) {
        forall f | f in m ensures Precede(x, f) {
          if f != x { PrecedeOrdenTotal(x, y, f); }
        }
        assert EsMinimo(x, m);
      } else {
        PrecedeOrdenTotal(y, x, x);
        assert EsMinimo(y, m);
      }
    }
  }

  /** The least entry is unique, so the entry popped is determined by the
      frontier's contents alone, whatever the heap's array layout. */
  lemma MinimoUnico(e: Entrada, f: Entrada, m: multiset<Entrada>)
    requires EsMinimo(e, m) && EsMinimo(f, m)
    ensures e == f
  {
    PrecedeOrdenTotal(e, f, f);
  }
}
