# Grid router: terrain matrix and A* search

This project models the routing core of `Refactorizacion_oop.py`, a small
interactive city-route planner.

- **`Mapa`**: a `filas × columnas` matrix of cell kinds. The kinds are
  `'calle'` (open street) and the obstacles `'agua'`, `'edificio'` and
  `'bache'`. The map also holds two optional endpoints, `inicio` and `fin`.
  Cells are overwritten in place by `agregar_obstaculo` and
  `eliminar_obstaculo`. `es_accesible` tells whether a cell can be walked on.
- **`CalculadoraRutas`**: the Manhattan heuristic `heuristica` and the A*
  search `a_star`. The search expands four neighbours per cell at unit
  cost. Its frontier is a `heapq` min-heap of `(prioridad, (fila, columna))`
  tuples. It keeps the dictionaries `costos` and `padres`, has no closed set
  (stale entries are popped and expanded again), and rebuilds the route by
  following `padres` back from `fin`, then reversing it.

The Dafny modules follow that split:

- `Mapas` (`mapa.dfy`) holds:
  - the cell kinds, positions and the four moves;
  - the class `Mapa` over an `array2<Celda>`;
  - what a walk over accessible cells is.
- `Frontera` (`frontera.dfy`) is the observable contract of the heap: a
  multiset of entries, with pop choosing the least entry under Python's
  tuple order.
- `Busqueda` (`busqueda.dfy`) holds:
  - the heuristic and its properties;
  - the invariants of the search loop and the lemmas that each step keeps
    them;
  - the optimality and no-path arguments;
  - the termination measure.
- `Rutas` (`rutas.dfy`) holds the class `CalculadoraRutas`. Its methods
  follow the loops of `a_star`: the outer `while abiertos` loop, the `for`
  loop over the four deltas, and the `while actual` reconstruction loop.

What is proved about `a_star`:

- A returned route is a walk from `inicio` to `fin`. Each step is one of
  the four deltas, and every cell after `inicio` is accessible.
- No such walk is shorter than the returned route. The route has at least
  `heuristica(inicio, fin) + 1` cells, and exactly `costos[fin] + 1`.
- `None` is returned only when no walk from `inicio` to `fin` exists.
- When `inicio == fin`, the result is `[inicio]`.
- On a map without obstacles, between two cells of the grid, a route is
  always found, and it has exactly `heuristica(inicio, fin)` moves.
- The search stamps `inicio` and `fin` on the map and writes no cell.
- The search always terminates. The measure sums, over every cell of the
  grid plus `inicio`, the cell's cost plus one if it is reached, and the
  length of that list plus one if it is not. A push happens only when a cost is new
  or strictly lower (line 103), so each expansion either lowers this sum or
  pushes nothing and shrinks the frontier.

At the edges, the model does what the code does:

- The constructor does not reject a non-positive number of rows or
  columns. As in Python, where `range` of a negative number is empty, the
  matrix then has zero rows or columns. The model's array has dimensions
  `max(filas, 0) × max(columnas, 0)`, while `filas` and `columnas` keep the
  values given.
- Out-of-range coordinates in the two mutators raise nothing. They only
  print a message, so the model leaves the matrix unchanged.
- The search does not require `inicio` or `fin` to be in bounds, and the
  model does not require it either.
- `inicio` itself need not be accessible. A walk from it only needs its
  later cells accessible, which is what the search checks.

## Model

| member | source | states |
|---|---|---|
| `Mapas.Mapa.constructor` | Refactorizacion_oop.py:12-27 | `filas` and `columnas` are kept as given; every cell is `Calle`; `inicio` and `fin` are unset |
| `Mapas.Mapa.AgregarObstaculo` | Refactorizacion_oop.py:29-33 | in range, cell `(x, y)` becomes `tipo` and every other cell is unchanged; out of range, no cell changes |
| `Mapas.Mapa.EliminarObstaculo` | Refactorizacion_oop.py:35-39 | in range, cell `(x, y)` becomes `Calle` and so becomes accessible, and every other cell is unchanged; out of range, no cell changes |
| `Mapas.Mapa.EsAccesible` | Refactorizacion_oop.py:41-42 | an accessible cell is always inside the matrix, so the search never indexes outside it; the predicate reads the cells and writes nothing |
| `Mapas.Vecino` | Refactorizacion_oop.py:98-99 | the neighbour reached by one of the four deltas is never the cell itself |
| `Busqueda.Heuristica` | Refactorizacion_oop.py:75-76 | the Manhattan distance is non-negative and is zero exactly when the two cells are equal |
| `Busqueda.HeuristicaSimetrica` | Refactorizacion_oop.py:75-76 | the heuristic is symmetric |
| `Busqueda.HeuristicaPaso` | Refactorizacion_oop.py:75-76 | one move changes the heuristic towards any cell by exactly one (consistency for unit steps) |
| `Busqueda.AdyacenteSiiDistanciaUno` | Refactorizacion_oop.py:98 | two cells are one of the four moves apart if and only if their Manhattan distance is one |
| `Busqueda.Admisible` | Refactorizacion_oop.py:75-76 | along any walk, the heuristic between two of its cells is at most the number of moves between them |
| `Busqueda.LongitudMinima` | Refactorizacion_oop.py:75-76 | every walk from `a` to `b` has at least `heuristica(a, b) + 1` cells |
| `Busqueda.CaminoDirecto` | Refactorizacion_oop.py:98-101 | on a map without obstacles, a walk of exactly `heuristica(a, b)` moves leads between any two cells of the grid, along the row first and then along the column |
| `Frontera.PrecedeOrdenTotal` | Refactorizacion_oop.py:88 | the tuple order on `(prioridad, (fila, columna))` is reflexive, total, antisymmetric and transitive |
| `Frontera.ExisteMinimo` | Refactorizacion_oop.py:87-88 | a non-empty frontier has a least entry, so `heappop` inside `while abiertos` always has something to return |
| `Frontera.MinimoUnico` | Refactorizacion_oop.py:88 | the least entry is unique, so the pop is fixed by the frontier's contents and not by the heap's layout |
| `Busqueda.EstadoInicial` | Refactorizacion_oop.py:82-85 | the initial frontier and dictionaries satisfy the search invariants: `inicio` at cost 0 with no parent, every entry a key of `costos`, every walk's first cell still open |
| `Busqueda.TrasExtraer` | Refactorizacion_oop.py:88 | popping an entry for a cell other than `fin` keeps the invariants, except for walks through the popped cell until it is expanded |
| `Busqueda.EmpujarArbol` | Refactorizacion_oop.py:103-107 | recording cost `costos[u] + 1` and parent `u` for an accessible neighbour keeps every parent adjacent, accessible and strictly cheaper, and keeps `costos[inicio] == 0` |
| `Busqueda.EmpujarAvance` | Refactorizacion_oop.py:103-106 | lowering a cost and pushing its entry keeps the walk invariant |
| `Busqueda.EmpujarFrontera` | Refactorizacion_oop.py:103-106 | after the push every frontier position is still a key of `costos` with a cost at most the entry's priority, and a reached `fin` still has an entry |
| `Busqueda.TrasEmpujar` | Refactorizacion_oop.py:101-107 | one improving neighbour update keeps all the search invariants |
| `Busqueda.RelajarEmpuja` | Refactorizacion_oop.py:101-107 | an improving neighbour update marks that neighbour as handled and strictly lowers the termination measure |
| `Busqueda.RelajarNada` | Refactorizacion_oop.py:101-103 | a neighbour that is inaccessible or not improved is already handled |
| `Busqueda.TrasExpandir` | Refactorizacion_oop.py:98-107 | once all four neighbours are handled, the walks through the expanded cell satisfy the invariant again |
| `Busqueda.Progreso` | Refactorizacion_oop.py:87-107 | along any walk from `inicio`, either the current cell is reached at cost at most its index, or an earlier cell with that bound is still open in the frontier |
| `Busqueda.CotaOptima` | Refactorizacion_oop.py:88-90 | when the least entry is one for `fin`, `costos[fin]` is at most the number of moves of any walk from `inicio` to `fin` |
| `Busqueda.SinCamino` | Refactorizacion_oop.py:87-109 | with the frontier exhausted, no walk leads from `inicio` to `fin` |
| `Busqueda.PotencialBaja` | Refactorizacion_oop.py:103-104 | a new or strictly lower cost lowers the termination measure of any list of cells that contains the cell, and never raises it |
| `Busqueda.PotencialEmpuje` | Refactorizacion_oop.py:101-104 | the updated cell is in the measure's list, and each push strictly lowers the termination measure |
| `Rutas.Invertida` | Refactorizacion_oop.py:95 | `ruta.reverse()`: same length, element `i` is element `n-1-i` of the input |
| `Rutas.RutaEnMapaAbierto` | Refactorizacion_oop.py:78-109 | on a map without obstacles and with both endpoints in the grid, any result meeting the contract of `AStar` is a route, of exactly `heuristica(inicio, fin) + 1` cells |
| `Rutas.CalculadoraRutas.constructor` | Refactorizacion_oop.py:72-73 | the calculator keeps the map it is given |
| `Rutas.CalculadoraRutas.AStar` | Refactorizacion_oop.py:78-109 | stamps `inicio` and `fin` on the map and writes no cell; a route is a shortest walk from `inicio` to `fin` over accessible cells with at least `heuristica + 1` cells; `None` only when no walk exists; `[inicio]` when `inicio == fin` |
| `Rutas.CalculadoraRutas.Buscar` | Refactorizacion_oop.py:81-109 | the search loop: the same result properties as `AStar`, with the loop proved to terminate |
| `Rutas.CalculadoraRutas.Expandir` | Refactorizacion_oop.py:98-107 | the neighbour loop restores the search invariants, keeps `costos` within the grid, and lowers the termination measure unless it pushed nothing |
| `Rutas.CalculadoraRutas.Reconstruir` | Refactorizacion_oop.py:90-96 | following `padres` from a reached cell and reversing gives a walk from `inicio` to it of at most `costos[p] + 1` cells |

## Left out

- Image loading and scaling in the constructor, and `tamano_celda` (lines 15 and 20-25): pygame display assets.
- `Mapa.dibujar` (lines 44-68): rendering only.
- `editar_obstaculos`, `seleccionar_inicio_fin` and `main` (lines 112 onwards): pygame event loops, pixel-to-cell division and screen updates.
- The `heapq` binary-heap layout. The frontier is a multiset, and pop returns its least entry under the `(prioridad, fila, columna)` order.
- The "Coordenadas inválidas" message (lines 33 and 39). The model keeps only its effect, which is no state change.
- Python's duck typing of the cell kind. `agregar_obstaculo` stores any string, while the model stores one of the four `Celda` values.
- `Rutas.CalculadoraRutas.Reconstruir`: states `|ruta| <= costos[p] + 1`, not that every `padres` chain is exactly `costos[p]` moves long. A chain through a parent whose cost was lowered later is shorter than its recorded cost, so the stronger invariant would rest on the consistency argument. For the route that is returned, `Buscar` shows the length is exactly `costos[fin] + 1`, because `CotaOptima` bounds `costos[fin]` by the route's own length.
- `ruta.reverse()` works in place on the list. The model reverses a value with `Invertida`.
- `heuristica` is a method of `CalculadoraRutas` that reads no field. The model makes it a module-level function.
- `a_star` is one method in the source. The model splits it into `AStar`, which stamps the endpoints, and `Buscar`, `Expandir` and `Reconstruir`, one per loop.
