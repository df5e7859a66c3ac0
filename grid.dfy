// The playing field: cells (0, 0) .. map_max, its capacity, and the scan
// that collects the cells food may be placed on.

module Grid {
  import opened Types
  import opened Seqs

  /** Whether a cell lies on the map whose bottom-right corner is mapMax. */
  predicate InBounds(c: Coordinate, mapMax: Coordinate)
  {
    0 <= c.x <= mapMax.x && 0 <= c.y <= mapMax.y
  }

  predicate AllInBounds(cells: seq<Coordinate>, mapMax: Coordinate)
  {
    forall c :: c in cells ==> InBounds(c, mapMax)
  }

  /** The order in which CreateNewFood visits cells: x outer, y inner. */
  predicate ScanBefore(a: Coordinate, b: Coordinate)
  {
    a.x < b.x || (a.x == b.x && a.y < b.y)
  }

  predicate InScanOrder(cells: seq<Coordinate>)
  {
    forall i, j :: 0 <= i < j < |cells| ==> ScanBefore(cells[i], cells[j])
  }

  /** GetMaxSnakeLength: the size of the body buffer. */
  function Capacity(mapMax: Coordinate): int
  {
    (mapMax.x + 1) * (mapMax.y + 1)
  }

  /** The cells (x, 0) .. (x, yEnd - 1) that are not occupied, in scan order
      (the inner loop of CreateNewFood). */
  function ColumnFree(occupied: seq<Coordinate>, x: int, yEnd: int): seq<Coordinate>
    decreases yEnd
  {
    if yEnd <= 0 then []
    else
      var before := ColumnFree(occupied, x, yEnd - 1);
      var cell := Coordinate(x, yEnd - 1);
      if cell in occupied then before else before + [cell]
  }

  /** The free cells of columns 0 .. xEnd - 1 of a map with rows 0 .. maxY,
      in scan order (the outer loop of CreateNewFood). */
  function GridFree(occupied: seq<Coordinate>, xEnd: int, maxY: int): seq<Coordinate>
    decreases xEnd
  {
    if xEnd <= 0 then []
    else
      var before := GridFree(occupied, xEnd - 1, maxY);
      var column := ColumnFree(occupied, xEnd - 1, maxY + 1);
      before + column
  }

  /** The candidate list of CreateNewFood: every cell of the map that is not
      occupied, each once, in the order the scan visits them. */
  function FreeCells(mapMax: Coordinate, occupied: seq<Coordinate>): (free: seq<Coordinate>)
    ensures forall c :: c in free <==> InBounds(c, mapMax) && c !in occupied
  {
    GridFreeMembers(occupied, mapMax.x + 1, mapMax.y);
    GridFree(occupied, mapMax.x + 1, mapMax.y)
  }

  lemma {:induction false} ColumnFreeMembers(occupied: seq<Coordinate>, x: int, yEnd: int)
    decreases yEnd
    ensures forall c :: c in ColumnFree(occupied, x, yEnd) <==> c.x == x && 0 <= c.y < yEnd && c !in occupied
  {
    if yEnd > 0 {
      ColumnFreeMembers(occupied, x, yEnd - 1);
    }
  }

  lemma {:induction false} GridFreeMembers(occupied: seq<Coordinate>, xEnd: int, maxY: int)
    decreases xEnd
    ensures forall c :: c in GridFree(occupied, xEnd, maxY) <==> 0 <= c.x < xEnd && 0 <= c.y <= maxY && c !in occupied
  {
    if xEnd > 0 {
      GridFreeMembers(occupied, xEnd - 1, maxY);
      ColumnFreeMembers(occupied, xEnd - 1, maxY + 1);
    }
  }

  lemma {:induction false} ColumnFreeInScanOrder(occupied: seq<Coordinate>, x: int, yEnd: int)
    decreases yEnd
    ensures InScanOrder(ColumnFree(occupied, x, yEnd))
  {
    if yEnd > 0 {
      ColumnFreeInScanOrder(occupied, x, yEnd - 1);
      ColumnFreeMembers(occupied, x, yEnd - 1);
      var before := ColumnFree(occupied, x, yEnd - 1);
      assert forall i :: 0 <= i < |before| ==> before[i] in before;
    }
  }

  lemma {:induction false} GridFreeInScanOrder(occupied: seq<Coordinate>, xEnd: int, maxY: int)
    decreases xEnd
    ensures InScanOrder(GridFree(occupied, xEnd, maxY))
  {
    if xEnd > 0 {
      GridFreeInScanOrder(occupied, xEnd - 1, maxY);
      ColumnFreeInScanOrder(occupied, xEnd - 1, maxY + 1);
      GridFreeMembers(occupied, xEnd - 1, maxY);
      ColumnFreeMembers(occupied, xEnd - 1, maxY + 1);
      var before := GridFree(occupied, xEnd - 1, maxY);
      var column := ColumnFree(occupied, xEnd - 1, maxY + 1);
      assert forall i :: 0 <= i < |before| ==> before[i] in before;
      assert forall j :: 0 <= j < |column| ==> column[j] in column;
    }
  }

  /** The candidates come in the order CreateNewFood visits the cells, x
      outer and y inner, so none is listed twice. */
  lemma FreeCellsInScanOrder(mapMax: Coordinate, occupied: seq<Coordinate>)
    ensures InScanOrder(FreeCells(mapMax, occupied))
    ensures Distinct(FreeCells(mapMax, occupied))
  {
    GridFreeInScanOrder(occupied, mapMax.x + 1, mapMax.y);
  }

  lemma {:induction false} ColumnFreeAllLength(x: int, yEnd: nat)
    ensures |ColumnFree([], x, yEnd)| == yEnd
  {
    if yEnd > 0 {
      ColumnFreeAllLength(x, yEnd - 1);
    }
  }

  lemma {:induction false} GridFreeAllLength(xEnd: nat, maxY: nat)
    ensures |GridFree([], xEnd, maxY)| == xEnd * (maxY + 1)
  {
    if xEnd > 0 {
      var before := GridFree([], xEnd - 1, maxY);
      var column := ColumnFree([], xEnd - 1, maxY + 1);
      assert GridFree([], xEnd, maxY) == before + column;
      GridFreeAllLength(xEnd - 1, maxY);
      ColumnFreeAllLength(xEnd - 1, maxY + 1);
      MulStep(xEnd, maxY + 1);
    }
  }

  lemma MulStep(a: int, b: int)
    ensures a * b == (a - 1) * b + b
  {
  }

  /** The map has exactly Capacity(mapMax) cells: the scan of an empty map
      lists Capacity(mapMax) of them, every cell of the map once. */
  lemma CellCount(mapMax: Coordinate)
    requires mapMax.x >= 0 && mapMax.y >= 0
    ensures |FreeCells(mapMax, [])| == Capacity(mapMax)
  {
    GridFreeAllLength(mapMax.x + 1, mapMax.y);
  }

  /** While fewer slots than cells are scanned, at least one cell is free, so
      the random pick of CreateNewFood has a non-empty range. */
  lemma FreeCellExists(mapMax: Coordinate, occupied: seq<Coordinate>)
    requires mapMax.x >= 0 && mapMax.y >= 0
    requires |occupied| < Capacity(mapMax)
    ensures FreeCells(mapMax, occupied) != []
  {
    var all := FreeCells(mapMax, []);
    CellCount(mapMax);
    FreeCellsInScanOrder(mapMax, []);
    if FreeCells(mapMax, occupied) == [] {
      forall v | v in all ensures v in occupied {
        assert InBounds(v, mapMax);
        assert v !in FreeCells(mapMax, occupied);
      }
      DistinctWithin(all, occupied);
      assert false;
    }
  }
}
