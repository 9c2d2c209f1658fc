/** The mathematics behind `CalculadoraRutas.a_star`: the Manhattan
    heuristic, the invariants of the search loop over the dictionaries
    `costos` and `padres` and the frontier `abiertos`, and the measure
    that makes the loop terminate although it keeps no closed set. */
module Busqueda {
  import opened Mapas
  import opened Frontera

  function Abs(n: int): nat {
    if n < 0 then -n else n
  }

  /** `heuristica(a, b)`: the Manhattan distance. */
  function Heuristica(a: Pos, b: Pos): (r: int)
    ensures r >= 0
    ensures r == 0 <==> a == b
  {
    Abs(a.fila - b.fila) + Abs(a.columna - b.columna)
  }

  lemma HeuristicaSimetrica(a: Pos, b: Pos)
    ensures Heuristica(a, b) == Heuristica(b, a)
  {
  }

  /** One move changes the distance to any cell by exactly one: the
      heuristic is consistent for unit steps. */
  lemma HeuristicaPaso(a: Pos, b: Pos, c: Pos)
    requires Adyacente(a, b)
    ensures Heuristica(b, c) == Heuristica(a, c) + 1 || Heuristica(b, c) == Heuristica(a, c) - 1
  {
    var k: nat :| k < |Deltas| && b == Vecino(a, k);
  }

  /** The four moves are exactly the cells at Manhattan distance one. */
  lemma AdyacenteSiiDistanciaUno(a: Pos, b: Pos)
    ensures Adyacente(a, b) <==> Heuristica(a, b) == 1
  {
    if Heuristica(a, b) == 1 {
      if b.fila == a.fila - 1 {
        assert b == Vecino(a, 0);
      } else if b.fila == a.fila + 1 {
        assert b == Vecino(a, 1);
      } else if b.columna == a.columna - 1 {
        assert b == Vecino(a, 2);
      } else {
        assert b == Vecino(a, 3);
      }
    }
  }

  /** Admissibility: along a walk, the heuristic between two of its cells
      never exceeds the number of moves between them. */
  lemma {:induction false} Admisible(m: Mapa, w: seq<Pos>, a: Pos, i: int, k: int)
    requires m.Valid() && m.Recorrido(w, a)
    requires 0 <= i <= k < |w|
    ensures Heuristica(w[i], w[k]) <= k - i
  {
    if i < k {
      Admisible(m, w, a, i, k - 1);
      assert m.Paso(w, k);
      HeuristicaPaso(w[k - 1], w[k], w[i]);
      HeuristicaSimetrica(w[i], w[k - 1]);
      HeuristicaSimetrica(w[i], w[k]);
    }
  }

  /** Any walk from `a` to `b` visits at least `heuristica(a, b) + 1` cells. */
  lemma LongitudMinima(m: Mapa, w: seq<Pos>, a: Pos, b: Pos)
    requires m.Valid() && m.Camino(w, a, b)
    ensures |w| >= Heuristica(a, b) + 1
  {
    Admisible(m, w, a, 0, |w| - 1);
  }

  /** On a map without obstacles, moving along the row first and then
      along the column leads from `a` to `b` in exactly
      `heuristica(a, b)` moves. */
  lemma {:induction false} CaminoDirecto(m: Mapa, a: Pos, b: Pos)
    requires m.Valid() && m.SinObstaculos()
    requires m.EnRango(a.fila, a.columna) && m.EnRango(b.fila, b.columna)
    ensures exists w :: m.Camino(w, a, b) && |w| == Heuristica(a, b) + 1
    decreases Heuristica(a, b)
  {
    if a == b {
      assert m.Camino([a], a, b);
    } else {
      var k: nat :=
        if a.fila < b.fila then 1
        else if a.fila > b.fila then 0
        else if a.columna < b.columna then 3
        else 2;
      var c := Vecino(a, k);
      assert Heuristica(c, b) == Heuristica(a, b) - 1;
      CaminoDirecto(m, c, b);
      var resto :| m.Camino(resto, c, b) && |resto| == Heuristica(c, b) + 1;
      var w := [a] + resto;
      assert m.Accesible(c);
      forall i | 0 < i < |w| ensures m.Paso(w, i) {
        if i == 1 {
          assert Adyacente(a, c);
        } else {
          assert m.Paso(resto, i - 1);
          assert w[i - 1] == resto[i - 2] && w[i] == resto[i - 1];
        }
      }
      assert m.Camino(w, a, b);
    }
  }

  // ---------------------------------------------------------------
  // Invariants of the search loop
  // ---------------------------------------------------------------

  /** `padres` links every reached cell other than `inicio` to an adjacent
      cell of strictly lower cost; `inicio` costs 0 and has no parent. */
  ghost predicate Arbol(m: Mapa, inicio: Pos, costos: map<Pos, nat>, padres: map<Pos, Option<Pos>>)
    requires m.Valid()
    reads m.celdas
  {
    && inicio in costos && costos[inicio] == 0
    && costos.Keys == padres.Keys
    && padres[inicio] == None
    && (forall p {:trigger Enlace(m, costos, padres, p)} :: p in padres && p != inicio ==> Enlace(m, costos, padres, p))
    && (forall p :: p in costos ==> costos[p] < |costos|)
  }

  ghost predicate Enlace(m: Mapa, costos: map<Pos, nat>, padres: map<Pos, Option<Pos>>, p: Pos)
    requires m.Valid()
    requires p in padres
    reads m.celdas
  {
    && padres[p].Some?
    && padres[p].value in costos
    && p in costos
    && costos[padres[p].value] < costos[p]
    && Adyacente(padres[p].value, p)
    && m.Accesible(p)
  }

  /** Each frontier entry names a reached cell and carries a priority no
      lower than that cell's current cost. */
  ghost predicate FronteraEnCostos(costos: map<Pos, nat>, abiertos: multiset<Entrada>) {
    forall e :: e in abiertos ==> e.pos in costos && costos[e.pos] <= e.prioridad
  }

  /** Once `fin` is reached, some entry for it waits in the frontier. */
  ghost predicate FinPendiente(fin: Pos, costos: map<Pos, nat>, abiertos: multiset<Entrada>) {
    fin in costos ==> exists e :: e in abiertos && e.pos == fin
  }

  /** `q` still has an entry whose priority is at most its current cost
      plus the heuristic to `fin`. */
  ghost predicate Abierto(abiertos: multiset<Entrada>, costos: map<Pos, nat>, fin: Pos, q: Pos) {
    q in costos && exists e :: e in abiertos && e.pos == q && e.prioridad <= costos[q] + Heuristica(fin, q)
  }

  /** The `j`-th cell of `w` has been reached at cost at most `j`. */
  ghost predicate Bueno(costos: map<Pos, nat>, w: seq<Pos>, j: int) {
    0 <= j < |w| && w[j] in costos && costos[w[j]] <= j
  }

  /** The heart of the correctness argument: along any walk from `inicio`,
      a cell reached cheaply enough and no longer open has passed that
      bound on to its successor. `excepto` is the cell whose neighbours
      are being expanded, for which this is still being restored. */
  ghost predicate Avance(m: Mapa, inicio: Pos, fin: Pos, costos: map<Pos, nat>, abiertos: multiset<Entrada>,
                         excepto: Option<Pos>)
    requires m.Valid()
    reads m.celdas
  {
    forall w, j {:trigger Bueno(costos, w, j), Abierto(abiertos, costos, fin, w[j])} ::
      m.Recorrido(w, inicio) && j < |w| - 1 && Bueno(costos, w, j) && !Abierto(abiertos, costos, fin, w[j])
      ==> Bueno(costos, w, j + 1) || excepto == Some(w[j])
  }

  ghost predicate Estado(m: Mapa, inicio: Pos, fin: Pos, costos: map<Pos, nat>, padres: map<Pos, Option<Pos>>,
                         abiertos: multiset<Entrada>, excepto: Option<Pos>)
    requires m.Valid()
    reads m.celdas
  {
    && Arbol(m, inicio, costos, padres)
    && FronteraEnCostos(costos, abiertos)
    && FinPendiente(fin, costos, abiertos)
    && Avance(m, inicio, fin, costos, abiertos, excepto)
  }

  /** The state before the first pop. */
  lemma EstadoInicial(m: Mapa, inicio: Pos, fin: Pos)
    requires m.Valid()
    ensures Estado(m, inicio, fin, map[inicio := 0], map[inicio := None], multiset{Entrada(0, inicio)}, None)
  {
    var costos := map[inicio := 0];
    var abiertos := multiset{Entrada(0, inicio)};
    assert Entrada(0, inicio) in abiertos;
    assert Abierto(abiertos, costos, fin, inicio);
  }

  /** Popping an entry for `u != fin` keeps every invariant, except that
      the walks through `u` must wait for `u`'s expansion. */
  lemma TrasExtraer(m: Mapa, inicio: Pos, fin: Pos, costos: map<Pos, nat>, padres: map<Pos, Option<Pos>>,
                    abiertos: multiset<Entrada>, e: Entrada)
    requires m.Valid()
    requires Estado(m, inicio, fin, costos, padres, abiertos, None)
    requires e in abiertos && e.pos != fin
    ensures Estado(m, inicio, fin, costos, padres, abiertos - multiset{e}, Some(e.pos))
  {
    var resto := abiertos - multiset{e};
    forall f | f in abiertos && f != e ensures f in resto {
      assert resto[f] == abiertos[f];
    }
    forall w, j | m.Recorrido(w, inicio) && j < |w| - 1 && Bueno(costos, w, j) && !Abierto(resto, costos, fin, w[j])
      ensures Bueno(costos, w, j + 1) || Some(e.pos) == Some(w[j])
    {
      if w[j] != e.pos {
        assert !Abierto(abiertos, costos, fin, w[j]);
      }
    }
    if fin in costos {
      var f :| f in abiertos && f.pos == fin;
      assert f in resto;
    }
  }

  /** An open cell stays open when entries are only added and its cost
      is unchanged. */
  lemma AbiertoPersiste(abiertos: multiset<Entrada>, abiertos': multiset<Entrada>,
                        costos: map<Pos, nat>, costos': map<Pos, nat>, fin: Pos, q: Pos)
    requires abiertos <= abiertos'
    requires q in costos ==> q in costos' && costos'[q] == costos[q]
    ensures Abierto(abiertos, costos, fin, q) ==> Abierto(abiertos', costos', fin, q)
  {
    if Abierto(abiertos, costos, fin, q) {
      var f :| f in abiertos && f.pos == q && f.prioridad <= costos[q] + Heuristica(fin, q);
      assert f in abiertos';
    }
  }

  /** The tree part of the invariant survives recording `v`'s cheaper cost
      `costos[u] + 1` with parent `u`. */
  lemma EmpujarArbol(m: Mapa, inicio: Pos, costos: map<Pos, nat>, padres: map<Pos, Option<Pos>>, u: Pos, k: nat)
    requires m.Valid()
    requires Arbol(m, inicio, costos, padres)
    requires u in costos && k < |Deltas|
    requires m.Accesible(Vecino(u, k))
    requires Vecino(u, k) !in costos || costos[u] + 1 < costos[Vecino(u, k)]
    ensures Arbol(m, inicio, costos[Vecino(u, k) := costos[u] + 1], padres[Vecino(u, k) := Some(u)])
  {
    var v := Vecino(u, k);
    var g := costos[u] + 1;
    var costos', padres' := costos[v := g], padres[v := Some(u)];
    assert v != inicio;
    assert |costos'| == if v in costos then |costos| else |costos| + 1 by {
      if v !in costos {
        assert costos'.Keys == costos.Keys + {v};
      } else {
        assert costos'.Keys == costos.Keys;
      }
    }
    forall p | p in padres' && p != inicio ensures Enlace(m, costos', padres', p) {
      if p == v {
        assert Adyacente(u, v);
      } else {
        assert Enlace(m, costos, padres, p);
      }
    }
  }

  /** The walk invariant survives lowering the cost of `v` to `g` and
      pushing the matching entry. */
  lemma EmpujarAvance(m: Mapa, inicio: Pos, fin: Pos, costos: map<Pos, nat>, abiertos: multiset<Entrada>,
                      u: Pos, v: Pos, g: nat)
    requires m.Valid()
    requires Avance(m, inicio, fin, costos, abiertos, Some(u))
    requires v !in costos || g < costos[v]
    ensures Avance(m, inicio, fin, costos[v := g], abiertos + multiset{Entrada(g + Heuristica(fin, v), v)}, Some(u))
  {
    var costos' := costos[v := g];
    var nueva := Entrada(g + Heuristica(fin, v), v);
    var abiertos' := abiertos + multiset{nueva};
    assert Abierto(abiertos', costos', fin, v) by {
      assert nueva in abiertos';
    }
    forall w, j | m.Recorrido(w, inicio) && j < |w| - 1 && Bueno(costos', w, j) && !Abierto(abiertos', costos', fin, w[j])
      ensures Bueno(costos', w, j + 1) || Some(u) == Some(w[j])
    {
      AbiertoPersiste(abiertos, abiertos', costos, costos', fin, w[j]);
      assert Bueno(costos, w, j);
      if Bueno(costos, w, j + 1) {
        assert Bueno(costos', w, j + 1);
      }
    }
  }

  /** The entries' bounds survive lowering the cost of `v` to `g` and
      pushing the matching entry. */
  lemma EmpujarFrontera(fin: Pos, costos: map<Pos, nat>, abiertos: multiset<Entrada>, v: Pos, g: nat)
    requires FronteraEnCostos(costos, abiertos) && FinPendiente(fin, costos, abiertos)
    requires v !in costos || g < costos[v]
    ensures FronteraEnCostos(costos[v := g], abiertos + multiset{Entrada(g + Heuristica(fin, v), v)})
    ensures FinPendiente(fin, costos[v := g], abiertos + multiset{Entrada(g + Heuristica(fin, v), v)})
  {
    var nueva := Entrada(g + Heuristica(fin, v), v);
    var abiertos' := abiertos + multiset{nueva};
    assert nueva in abiertos';
    if fin in costos && fin != v {
      var f :| f in abiertos && f.pos == fin;
      assert f in abiertos';
    }
  }

  /** Recording the cheaper cost `costos[u] + 1` for the accessible
      neighbour `v`, its parent `u`, and pushing its entry, keeps every
      invariant. */
  lemma TrasEmpujar(m: Mapa, inicio: Pos, fin: Pos, costos: map<Pos, nat>, padres: map<Pos, Option<Pos>>,
                    abiertos: multiset<Entrada>, u: Pos, k: nat, v: Pos, g: nat)
    requires m.Valid()
    requires Estado(m, inicio, fin, costos, padres, abiertos, Some(u))
    requires u in costos && k < |Deltas|
    requires v == Vecino(u, k) && g == costos[u] + 1
    requires m.Accesible(v)
    requires v !in costos || g < costos[v]
    ensures Estado(m, inicio, fin, costos[v := g], padres[v := Some(u)],
                   abiertos + multiset{Entrada(g + Heuristica(fin, v), v)}, Some(u))
  {
    var costos', padres' := costos[v := g], padres[v := Some(u)];
    var abiertos' := abiertos + multiset{Entrada(g + Heuristica(fin, v), v)};
    assert Arbol(m, inicio, costos', padres') by {
      EmpujarArbol(m, inicio, costos, padres, u, k);
    }
    assert Avance(m, inicio, fin, costos', abiertos', Some(u)) by {
      EmpujarAvance(m, inicio, fin, costos, abiertos, u, v, g);
    }
    assert FronteraEnCostos(costos', abiertos') && FinPendiente(fin, costos', abiertos') by {
      EmpujarFrontera(fin, costos, abiertos, v, g);
    }
  }

  /** A neighbour of `u` that has been looked at is reached at cost at
      most `costos[u] + 1`. */
  ghost predicate Expandido(m: Mapa, costos: map<Pos, nat>, u: Pos, i: int)
    requires m.Valid()
    requires u in costos
    reads m.celdas
  {
    forall k: nat :: k < i && k < |Deltas| && m.Accesible(Vecino(u, k)) ==>
      Vecino(u, k) in costos && costos[Vecino(u, k)] <= costos[u] + 1
  }

  /** What the neighbour loop keeps besides the search invariants, after
      the first `i` neighbours of `actual` were looked at, starting from
      `costos0` and `abiertos0`. */
  ghost predicate Parcial(m: Mapa, inicio: Pos, actual: Pos, costos0: map<Pos, nat>, abiertos0: multiset<Entrada>,
                          universo: seq<Pos>, costos: map<Pos, nat>, abiertos: multiset<Entrada>, i: int)
    requires m.Valid()
    reads m.celdas
  {
    && actual in costos0 && actual in costos && costos[actual] == costos0[actual]
    && Expandido(m, costos, actual, i)
    && universo == [inicio] + Casillas(m.filas, m.columnas)
    && (forall p :: p in costos ==> p in universo)
    && Potencial(costos, universo, |universo|) <= Potencial(costos0, universo, |universo|)
    && (Potencial(costos, universo, |universo|) < Potencial(costos0, universo, |universo|) || abiertos == abiertos0)
  }

  /** A turn of the neighbour loop in which the `i`-th neighbour `v` is
      accessible and `g = costos[actual] + 1` is new or cheaper for it:
      recording `g` keeps the loop's bookkeeping and lowers the measure. */
  lemma RelajarEmpuja(m: Mapa, inicio: Pos, padres: map<Pos, Option<Pos>>, actual: Pos, costos0: map<Pos, nat>,
                      abiertos0: multiset<Entrada>, universo: seq<Pos>, costos: map<Pos, nat>,
                      abiertos: multiset<Entrada>, i: nat, v: Pos, g: nat, e: Entrada)
    requires m.Valid() && i < |Deltas|
    requires Arbol(m, inicio, costos, padres)
    requires Parcial(m, inicio, actual, costos0, abiertos0, universo, costos, abiertos, i)
    requires v == Vecino(actual, i) && g == costos[actual] + 1
    requires m.Accesible(v)
    requires v !in costos || g < costos[v]
    ensures Parcial(m, inicio, actual, costos0, abiertos0, universo, costos[v := g], abiertos + multiset{e}, i + 1)
  {
    PotencialEmpuje(m, inicio, costos, padres, universo, v, g);
    ExpandidoEmpuje(m, costos, actual, i);
  }

  /** A turn of the neighbour loop that leaves the `i`-th neighbour alone,
      because it is not accessible or not improved. */
  lemma RelajarNada(m: Mapa, inicio: Pos, actual: Pos, costos0: map<Pos, nat>, abiertos0: multiset<Entrada>,
                    universo: seq<Pos>, costos: map<Pos, nat>, abiertos: multiset<Entrada>, i: nat)
    requires m.Valid() && i < |Deltas|
    requires Parcial(m, inicio, actual, costos0, abiertos0, universo, costos, abiertos, i)
    requires m.Accesible(Vecino(actual, i)) ==>
               Vecino(actual, i) in costos && costos[Vecino(actual, i)] <= costos[actual] + 1
    ensures Parcial(m, inicio, actual, costos0, abiertos0, universo, costos, abiertos, i + 1)
  {
  }

  /** Lowering a cost lowers the termination measure. */
  lemma PotencialEmpuje(m: Mapa, inicio: Pos, costos: map<Pos, nat>, padres: map<Pos, Option<Pos>>, universo: seq<Pos>,
                        v: Pos, g: nat)
    requires m.Valid()
    requires Arbol(m, inicio, costos, padres)
    requires universo == [inicio] + Casillas(m.filas, m.columnas)
    requires forall p :: p in costos ==> p in universo
    requires m.Accesible(v)
    requires exists u :: u in costos && g == costos[u] + 1
    requires v !in costos || g < costos[v]
    ensures v in universo
    ensures Potencial(costos[v := g], universo, |universo|) < Potencial(costos, universo, |universo|)
  {
    var n := |universo|;
    assert v in Casillas(m.filas, m.columnas);
    assert g < n by {
      CardinalAcotado(costos.Keys + {v}, universo);
      if v !in costos {
        assert |costos.Keys + {v}| == |costos| + 1;
      } else {
        assert costos.Keys + {v} == costos.Keys;
      }
    }
    PotencialBaja(costos, v, g, universo, n);
  }

  lemma ExpandidoEmpuje(m: Mapa, costos: map<Pos, nat>, actual: Pos, i: nat)
    requires m.Valid() && i < |Deltas|
    requires actual in costos
    requires Expandido(m, costos, actual, i)
    requires Vecino(actual, i) !in costos || costos[actual] + 1 < costos[Vecino(actual, i)]
    ensures Expandido(m, costos[Vecino(actual, i) := costos[actual] + 1], actual, i + 1)
  {
  }

  /** Once all four neighbours of `u` are expanded, the walks through `u`
      satisfy the invariant again. */
  lemma TrasExpandir(m: Mapa, inicio: Pos, fin: Pos, costos: map<Pos, nat>, padres: map<Pos, Option<Pos>>,
                     abiertos: multiset<Entrada>, u: Pos)
    requires m.Valid()
    requires u in costos
    requires Estado(m, inicio, fin, costos, padres, abiertos, Some(u))
    requires Expandido(m, costos, u, |Deltas|)
    ensures Estado(m, inicio, fin, costos, padres, abiertos, None)
  {
    forall w, j | m.Recorrido(w, inicio) && j < |w| - 1 && Bueno(costos, w, j) && !Abierto(abiertos, costos, fin, w[j])
      ensures Bueno(costos, w, j + 1)
    {
      if w[j] == u {
        assert m.Paso(w, j + 1);
        var k: nat :| k < |Deltas| && w[j + 1] == Vecino(u, k);
      }
    }
  }

  /** Along a walk from `inicio`, either every cell so far kept the cost
      bound, or some earlier cell within the bound is still open. */
  lemma {:induction false} Progreso(m: Mapa, inicio: Pos, fin: Pos, costos: map<Pos, nat>, abiertos: multiset<Entrada>,
                                    w: seq<Pos>, j: int)
    requires m.Valid()
    requires Avance(m, inicio, fin, costos, abiertos, None)
    requires inicio in costos && costos[inicio] == 0
    requires m.Recorrido(w, inicio) && 0 <= j < |w|
    ensures Bueno(costos, w, j) || exists i :: 0 <= i < j && Bueno(costos, w, i) && Abierto(abiertos, costos, fin, w[i])
  {
    if j > 0 {
      Progreso(m, inicio, fin, costos, abiertos, w, j - 1);
    }
  }

  /** When the least entry of the frontier is one for `fin`, `costos[fin]`
      is at most the number of moves of any walk from `inicio` to `fin`. */
  lemma CotaOptima(m: Mapa, inicio: Pos, fin: Pos, costos: map<Pos, nat>,
                   abiertos: multiset<Entrada>, e: Entrada, w: seq<Pos>)
    requires m.Valid()
    requires inicio in costos && costos[inicio] == 0
    requires FronteraEnCostos(costos, abiertos)
    requires Avance(m, inicio, fin, costos, abiertos, None)
    requires EsMinimo(e, abiertos) && e.pos == fin
    requires m.Camino(w, inicio, fin)
    ensures fin in costos && costos[fin] <= |w| - 1
  {
    Progreso(m, inicio, fin, costos, abiertos, w, |w| - 1);
    if exists i :: 0 <= i < |w| - 1 && Bueno(costos, w, i) && Abierto(abiertos, costos, fin, w[i]) {
      var i :| 0 <= i < |w| - 1 && Bueno(costos, w, i) && Abierto(abiertos, costos, fin, w[i]);
      var f :| f in abiertos && f.pos == w[i] && f.prioridad <= costos[w[i]] + Heuristica(fin, w[i]);
      Admisible(m, w, inicio, i, |w| - 1);
      HeuristicaSimetrica(fin, w[i]);
      assert Precede(e, f);
    }
  }

  /** An exhausted frontier means no walk leads from `inicio` to `fin`. */
  lemma SinCamino(m: Mapa, inicio: Pos, fin: Pos, costos: map<Pos, nat>, padres: map<Pos, Option<Pos>>, w: seq<Pos>)
    requires m.Valid()
    requires Estado(m, inicio, fin, costos, padres, multiset{}, None)
    ensures !m.Camino(w, inicio, fin)
  {
    if m.Camino(w, inicio, fin) {
      Progreso(m, inicio, fin, costos, multiset{}, w, |w| - 1);
    }
  }

  // ---------------------------------------------------------------
  // Termination
  // ---------------------------------------------------------------

  /** Row `r` of the grid, left to right. */
  function Fila(r: int, columnas: int): (s: seq<Pos>)
    ensures forall c :: 0 <= c < columnas ==> Pos(r, c) in s
  {
    if columnas <= 0 then [] else Fila(r, columnas - 1) + [Pos(r, columnas - 1)]
  }

  /** Every cell of a `filas x columnas` grid, row by row. */
  function Casillas(filas: int, columnas: int): (s: seq<Pos>)
    ensures forall p: Pos :: 0 <= p.fila < filas && 0 <= p.columna < columnas ==> p in s
  {
    if filas <= 0 then [] else
      Casillas(filas - 1, columnas) + Fila(filas - 1, columnas)
  }

  lemma {:induction false} CardinalAcotado(s: set<Pos>, ps: seq<Pos>)
    requires forall p :: p in s ==> p in ps
    ensures |s| <= |ps|
  {
    if ps != [] {
      var resto := s - {ps[0]};
      CardinalAcotado(resto, ps[1..]);
      assert s <= resto + {ps[0]};
    } else {
      assert s == {};
    }
  }

  /** The sum, over the cells of `ps`, of `costos[p] + 1` for a reached
      cell and `n + 1` for one not yet reached. */
  function Potencial(costos: map<Pos, nat>, ps: seq<Pos>, n: nat): nat {
    if ps == [] then 0 else
      (if ps[0] in costos then costos[ps[0]] + 1 else n + 1) + Potencial(costos, ps[1..], n)
  }

  /** A push lowers or adds the cost of a cell, which lowers the potential
      of any list of cells that contains it. */
  lemma {:induction false} PotencialBaja(costos: map<Pos, nat>, v: Pos, g: nat, ps: seq<Pos>, n: nat)
    requires v !in costos || g < costos[v]
    requires g < n
    ensures Potencial(costos[v := g], ps, n) <= Potencial(costos, ps, n)
    ensures v in ps ==> Potencial(costos[v := g], ps, n) < Potencial(costos, ps, n)
  {
    if ps != [] {
      PotencialBaja(costos, v, g, ps[1..], n);
    }
  }
}
