/** The terrain matrix of the router: cell kinds, grid positions and the
    four orthogonal moves, and the class `Mapa` whose cells the editor
    overwrites in place. */
module Mapas {

  datatype Option<T> = None | Some(value: T)

  /** The kinds of cell the program stores in the matrix: 'calle' (open
      street) and the three obstacle kinds 'agua', 'edificio', 'bache'. */
  datatype Celda = Calle | Agua | Edificio | Bache

  /** A cell coordinate (fila = row, columna = column); Python's `(x, y)`. */
  datatype Pos = Pos(fila: int, columna: int)

  /** The neighbour deltas, in the order the search tries them. */
  const Deltas: seq<(int, int)> := [(-1, 0), (1, 0), (0, -1), (0, 1)]

  function Vecino(p: Pos, k: nat): (v: Pos)
    requires k < |Deltas|
    ensures v != p
  {
    Pos(p.fila + Deltas[k].0, p.columna + Deltas[k].1)
  }

  /** `b` is reached from `a` by one of the four moves. */
  predicate Adyacente(a: Pos, b: Pos) {
    exists k: nat :: k < |Deltas| && b == Vecino(a, k)
  }

  function Max0(n: int): nat {
    if n < 0 then 0 else n
  }

  class Mapa {
    const filas: int
    const columnas: int
    /** Python's `self.mapa`, a list of `filas` rows of `columnas` cells. */
    const celdas: array2<Celda>
    var inicio: Option<Pos>
    var fin: Option<Pos>

    ghost predicate Valid() {
      celdas.Length0 == Max0(filas) && celdas.Length1 == Max0(columnas)
    }

    predicate EnRango(x: int, y: int) {
      0 <= x < filas && 0 <= y < columnas
    }

    /** A new map: every cell is 'calle', no endpoints chosen. */
    constructor (filas: int, columnas: int)
      ensures Valid() && fresh(celdas)
      ensures this.filas == filas && this.columnas == columnas
      ensures forall i, j :: 0 <= i < celdas.Length0 && 0 <= j < celdas.Length1 ==> celdas[i, j] == Calle
      ensures inicio == None && fin == None
    {
      this.filas := filas;
      this.columnas := columnas;
      celdas := new Celda[Max0(filas), Max0(columnas)]((_, _) => Calle);
      inicio := None;
      fin := None;
    }

    /** Writes `tipo` at `(x, y)` when that cell exists; otherwise the
        source only prints a message, so nothing changes. */
    method AgregarObstaculo(x: int, y: int, tipo: Celda)
      requires Valid()
      modifies celdas
      ensures Valid()
      ensures EnRango(x, y) ==> celdas[x, y] == tipo
      ensures forall i, j :: 0 <= i < celdas.Length0 && 0 <= j < celdas.Length1 && (i, j) != (x, y) ==>
                celdas[i, j] == old(celdas[i, j])
      // Implied by the previous clause; stated for the reader.
      ensures !EnRango(x, y) ==> forall i, j :: 0 <= i < celdas.Length0 && 0 <= j < celdas.Length1 ==>
                celdas[i, j] == old(celdas[i, j])
    {
      if 0 <= x < filas && 0 <= y < columnas {
        celdas[x, y] := tipo;
      }
    }

    /** Puts 'calle' back at `(x, y)` when that cell exists; otherwise a no-op. */
    method EliminarObstaculo(x: int, y: int)
      requires Valid()
      modifies celdas
      ensures Valid()
      ensures EnRango(x, y) ==> celdas[x, y] == Calle && EsAccesible(x, y)
      ensures forall i, j :: 0 <= i < celdas.Length0 && 0 <= j < celdas.Length1 && (i, j) != (x, y) ==>
                celdas[i, j] == old(celdas[i, j])
      // Implied by the previous clause; stated for the reader.
      ensures !EnRango(x, y) ==> forall i, j :: 0 <= i < celdas.Length0 && 0 <= j < celdas.Length1 ==>
                celdas[i, j] == old(celdas[i, j])
    {
      if 0 <= x < filas && 0 <= y < columnas {
        celdas[x, y] := Calle;
      }
    }

    /** A cell can be walked on exactly when it exists and is 'calle'. */
    predicate EsAccesible(x: int, y: int)
      requires Valid()
      reads celdas
      ensures EsAccesible(x, y) ==> 0 <= x < celdas.Length0 && 0 <= y < celdas.Length1
    {
      0 <= x < filas && 0 <= y < columnas && celdas[x, y] == Calle
    }

    predicate Accesible(p: Pos)
      requires Valid()
      reads celdas
    {
      EsAccesible(p.fila, p.columna)
    }

    /** No cell of the matrix holds an obstacle. */
    ghost predicate SinObstaculos()
      requires Valid()
      reads celdas
    {
      forall i, j :: 0 <= i < celdas.Length0 && 0 <= j < celdas.Length1 ==> celdas[i, j] == Calle
    }

    /** `w` is a walk from `a`: every later cell is one move from the
        previous one and accessible (`a` itself need not be). */
    ghost predicate Recorrido(w: seq<Pos>, a: Pos)
      requires Valid()
      reads celdas
    {
      && |w| >= 1 && w[0] == a
      && forall k {:trigger Paso(w, k)} :: 0 < k < |w| ==> Paso(w, k)
    }

    ghost predicate Paso(w: seq<Pos>, k: int)
      requires Valid()
      requires 0 < k < |w|
      reads celdas
    {
      Adyacente(w[k - 1], w[k]) && Accesible(w[k])
    }

    /** A walk from `a` that ends at `b`. */
    ghost predicate Camino(w: seq<Pos>, a: Pos, b: Pos)
      requires Valid()
      reads celdas
    {
      Recorrido(w, a) && w[|w| - 1] == b
    }
  }
}
