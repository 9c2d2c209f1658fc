/** `CalculadoraRutas`: the A* search over a `Mapa`, with its frontier
    `abiertos`, its dictionaries `costos` and `padres`, no closed set, and
    the route rebuilt from `padres` and reversed. */
module Rutas {
  import opened Mapas
  import opened Frontera
  import opened Busqueda

  /** `ruta.reverse()`: the list read back to front. */
  function Invertida(s: seq<Pos>): (r: seq<Pos>)
    ensures |r| == |s|
    ensures forall i :: 0 <= i < |s| ==> r[i] == s[|s| - 1 - i]
  {
    if s == [] then [] else Invertida(s[1..]) + [s[0]]
  }

  /** What `a_star` returns on a map without obstacles, between two cells
      of the grid: given the contract of `AStar`, the route exists and has
      exactly `heuristica(inicio, fin)` moves. */
  lemma RutaEnMapaAbierto(m: Mapa, inicio: Pos, fin: Pos, resultado: Option<seq<Pos>>)
    requires m.Valid() && m.SinObstaculos()
    requires m.EnRango(inicio.fila, inicio.columna) && m.EnRango(fin.fila, fin.columna)
    requires resultado.Some? ==> m.Camino(resultado.value, inicio, fin)
    requires resultado.Some? ==> forall w :: m.Camino(w, inicio, fin) ==> |resultado.value| <= |w|
    requires resultado.None? ==> forall w :: !m.Camino(w, inicio, fin)
    ensures resultado.Some? && |resultado.value| == Heuristica(inicio, fin) + 1
  {
    CaminoDirecto(m, inicio, fin);
    var w :| m.Camino(w, inicio, fin) && |w| == Heuristica(inicio, fin) + 1;
    assert resultado.Some?;
    LongitudMinima(m, resultado.value, inicio, fin);
  }

  class CalculadoraRutas {
    const mapa: Mapa

    constructor (mapa: Mapa)
      ensures this.mapa == mapa
    {
      this.mapa := mapa;
    }

    /** `a_star(inicio, fin)`: records the endpoints on the map, then
        searches. The cells of the map are not written. */
    method AStar(inicio: Pos, fin: Pos) returns (resultado: Option<seq<Pos>>)
      requires mapa.Valid()
      modifies mapa`inicio, mapa`fin
      ensures mapa.inicio == Some(inicio) && mapa.fin == Some(fin)
      ensures resultado.Some? ==> mapa.Camino(resultado.value, inicio, fin)
      ensures resultado.Some? ==> forall w :: mapa.Camino(w, inicio, fin) ==> |resultado.value| <= |w|
      ensures resultado.Some? ==> |resultado.value| >= Heuristica(inicio, fin) + 1
      ensures resultado.None? ==> forall w :: !mapa.Camino(w, inicio, fin)
      ensures inicio == fin ==> resultado == Some([inicio])
      ensures forall i, j :: 0 <= i < mapa.celdas.Length0 && 0 <= j < mapa.celdas.Length1 ==>
                mapa.celdas[i, j] == old(mapa.celdas[i, j])
    {
      mapa.inicio := Some(inicio);
      mapa.fin := Some(fin);
      resultado := Buscar(inicio, fin);
    }

    /** The search loop of `a_star`. A route, when there is one, is a walk
        from `inicio` to `fin` over accessible cells that no other such walk
        beats in length; `None` comes back only when no such walk exists. */
    method Buscar(inicio: Pos, fin: Pos) returns (resultado: Option<seq<Pos>>)
      requires mapa.Valid()
      ensures resultado.Some? ==> mapa.Camino(resultado.value, inicio, fin)
      ensures resultado.Some? ==> forall w :: mapa.Camino(w, inicio, fin) ==> |resultado.value| <= |w|
      ensures resultado.Some? ==> |resultado.value| >= Heuristica(inicio, fin) + 1
      ensures resultado.None? ==> forall w :: !mapa.Camino(w, inicio, fin)
      ensures inicio == fin ==> resultado == Some([inicio])
    {
      var abiertos := multiset{Entrada(0, inicio)};
      var costos: map<Pos, nat> := map[inicio := 0];
      var padres: map<Pos, Option<Pos>> := map[inicio := None];
      EstadoInicial(mapa, inicio, fin);
      // Every cell that can enter `costos`, for the termination measure.
      ghost var universo := [inicio] + Casillas(mapa.filas, mapa.columnas);
      ghost var n := |universo|;

      while abiertos != multiset{}
        invariant Estado(mapa, inicio, fin, costos, padres, abiertos, None)
        invariant forall p :: p in costos ==> p in universo
        decreases Potencial(costos, universo, n), |abiertos|
      {
        ExisteMinimo(abiertos);
        var e :| EsMinimo(e, abiertos);
        ghost var antes := abiertos;
        abiertos := abiertos - multiset{e};
        var actual := e.pos;

        if actual == fin {
          var ruta := Reconstruir(inicio, fin, costos, padres);
          forall w | mapa.Camino(w, inicio, fin) ensures |ruta| <= |w| {
            CotaOptima(mapa, inicio, fin, costos, antes, e, w);
          }
          LongitudMinima(mapa, ruta, inicio, fin);
          // The parent chain of `fin` is exactly `costos[fin]` moves long.
          assert |ruta| == costos[fin] + 1 by {
            CotaOptima(mapa, inicio, fin, costos, antes, e, ruta);
          }
          if inicio == fin {
            assert mapa.Camino([inicio], inicio, fin);
            assert ruta == [inicio];
          }
          return Some(ruta);
        }

        TrasExtraer(mapa, inicio, fin, costos, padres, antes, e);
        costos, padres, abiertos := Expandir(inicio, fin, actual, costos, padres, abiertos, universo);
      }
      forall w ensures !mapa.Camino(w, inicio, fin) {
        SinCamino(mapa, inicio, fin, costos, padres, w);
      }
      assert !mapa.Camino([inicio], inicio, fin);
      return None;
    }

    /** The body of the `for dx, dy in ...` loop of `a_star`: each accessible
        neighbour of `actual` whose cost `costos[actual] + 1` is new or
        strictly lower gets that cost, `actual` as parent, and a frontier
        entry with priority cost plus heuristic. The search invariants are
        restored, and the termination measure drops unless nothing was
        pushed. */
    method Expandir(ghost inicio: Pos, fin: Pos, actual: Pos, costos0: map<Pos, nat>, padres0: map<Pos, Option<Pos>>,
                    abiertos0: multiset<Entrada>, ghost universo: seq<Pos>)
      returns (costos: map<Pos, nat>, padres: map<Pos, Option<Pos>>, abiertos: multiset<Entrada>)
      requires mapa.Valid()
      requires Estado(mapa, inicio, fin, costos0, padres0, abiertos0, Some(actual))
      requires actual in costos0
      requires universo == [inicio] + Casillas(mapa.filas, mapa.columnas)
      requires forall p :: p in costos0 ==> p in universo
      ensures Estado(mapa, inicio, fin, costos, padres, abiertos, None)
      ensures forall p :: p in costos ==> p in universo
      ensures Potencial(costos, universo, |universo|) < Potencial(costos0, universo, |universo|)
              || abiertos == abiertos0
      ensures Potencial(costos, universo, |universo|) <= Potencial(costos0, universo, |universo|)
    {
      costos, padres, abiertos := costos0, padres0, abiertos0;
      for i := 0 to |Deltas|
        invariant Estado(mapa, inicio, fin, costos, padres, abiertos, Some(actual))
        invariant Parcial(mapa, inicio, actual, costos0, abiertos0, universo, costos, abiertos, i)
      {
        var (dx, dy) := Deltas[i];
        var vecino := Pos(actual.fila + dx, actual.columna + dy);
        assert vecino == Vecino(actual, i);
        if mapa.EsAccesible(vecino.fila, vecino.columna) {
          var nuevoCosto := costos[actual] + 1;
          if vecino !in costos || nuevoCosto < costos[vecino] {
            var entrada := Entrada(nuevoCosto + Heuristica(fin, vecino), vecino);
            TrasEmpujar(mapa, inicio, fin, costos, padres, abiertos, actual, i, vecino, nuevoCosto);
            RelajarEmpuja(mapa, inicio, padres, actual, costos0, abiertos0, universo, costos, abiertos,
                          i, vecino, nuevoCosto, entrada);
            costos := costos[vecino := nuevoCosto];
            abiertos := abiertos + multiset{entrada};
            padres := padres[vecino := Some(actual)];
          } else {
            RelajarNada(mapa, inicio, actual, costos0, abiertos0, universo, costos, abiertos, i);
          }
        } else {
          RelajarNada(mapa, inicio, actual, costos0, abiertos0, universo, costos, abiertos, i);
        }
      }
      TrasExpandir(mapa, inicio, fin, costos, padres, abiertos, actual);
    }

    /** The `while actual:` loop of `a_star` followed by `ruta.reverse()`:
        following `padres` from `p` back to `inicio` gives a walk from
        `inicio` to `p` of at most `costos[p] + 1` cells. */
    method Reconstruir(ghost inicio: Pos, p: Pos, costos: map<Pos, nat>, padres: map<Pos, Option<Pos>>)
      returns (ruta: seq<Pos>)
      requires mapa.Valid()
      requires Arbol(mapa, inicio, costos, padres)
      requires p in costos
      ensures mapa.Camino(ruta, inicio, p)
      ensures |ruta| <= costos[p] + 1
    {
      ruta := [];
      var nodo: Option<Pos> := Some(p);
      ghost var camino: seq<Pos> := [];
      while nodo.Some?
        invariant |camino| == |ruta|
        invariant forall i :: 0 <= i < |ruta| ==> camino[i] == ruta[|ruta| - 1 - i]
        invariant ruta == [] ==> nodo == Some(p)
        invariant ruta != [] ==> camino[|camino| - 1] == p
        invariant forall k {:trigger mapa.Paso(camino, k)} :: 0 < k < |camino| ==> mapa.Paso(camino, k)
        invariant nodo.Some? ==> nodo.value in costos && |ruta| + costos[nodo.value] <= costos[p]
        invariant nodo.Some? && ruta != [] ==> Adyacente(nodo.value, camino[0]) && mapa.Accesible(camino[0])
        invariant nodo.None? ==> ruta != [] && camino[0] == inicio && |ruta| <= costos[p] + 1
        decreases if nodo.Some? then costos[nodo.value] + 1 else 0
      {
        var actual := nodo.value;
        if actual != inicio {
          assert Enlace(mapa, costos, padres, actual);
        }
        ghost var previo := camino;
        ruta := ruta + [actual];
        camino := [actual] + camino;
        forall k | 0 < k < |camino| ensures mapa.Paso(camino, k) {
          if k > 1 {
            assert mapa.Paso(previo, k - 1);
            assert camino[k - 1] == previo[k - 2] && camino[k] == previo[k - 1];
          }
        }
        nodo := padres[actual];
      }
      ruta := Invertida(ruta);
      assert ruta == camino;
    }
  }
}
