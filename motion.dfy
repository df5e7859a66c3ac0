// Headings: the no-reversal rule of SetSnakeDirection, the one-cell step of
// GetNewSnakeHead and the straight initial layout of InitSnake.

module Motion {
  import opened Types
  import opened Seqs

  /** The heading that points the other way; NONE has no opposite but itself. */
  function Opposite(d: Direction): (o: Direction)
    ensures (o == NONE) <==> (d == NONE)
    ensures d != NONE ==> o != d
  {
    match d
    case NONE => NONE
    case UP => DOWN
    case DOWN => UP
    case LEFT => RIGHT
    case RIGHT => LEFT
  }

  lemma OppositeInvolution(d: Direction)
    ensures Opposite(Opposite(d)) == d
  {
  }

  /** The switch of SetSnakeDirection: whether a request is recorded while the
      snake heads `current`. The DOWN case falls through into the default
      case, which does nothing, so all four headings obey the same rule. */
  function Accepts(current: Direction, requested: Direction): (ok: bool)
    ensures ok <==> requested != NONE && requested != Opposite(current)
  {
    match requested
    case NONE => false
    case LEFT => current != RIGHT
    case RIGHT => current != LEFT
    case UP => current != DOWN
    case DOWN => current != UP
  }

  /** Two cells that share a side. */
  predicate Adjacent(a: Coordinate, b: Coordinate)
  {
    (a.x == b.x && (a.y - b.y == 1 || b.y - a.y == 1)) ||
    (a.y == b.y && (a.x - b.x == 1 || b.x - a.x == 1))
  }

  /** GetNewSnakeHead: the cell one step from `previous` along `heading`;
      None stands for the exception a NONE heading raises. */
  function NewHead(previous: Coordinate, heading: Direction): (next: Option<Coordinate>)
    ensures next.None? <==> heading == NONE
    ensures next.Some? ==> Adjacent(previous, next.value)
    ensures heading in {UP, DOWN} ==> next.Some? && next.value.x == previous.x
    ensures heading in {LEFT, RIGHT} ==> next.Some? && next.value.y == previous.y
  {
    match heading
    case UP => Some(Coordinate(previous.x, previous.y - 1))
    case DOWN => Some(Coordinate(previous.x, previous.y + 1))
    case LEFT => Some(Coordinate(previous.x - 1, previous.y))
    case RIGHT => Some(Coordinate(previous.x + 1, previous.y))
    case NONE => None
  }

  /** A step along a heading is undone by a step along its opposite. */
  lemma StepThenBack(p: Coordinate, d: Direction)
    requires d != NONE
    ensures NewHead(NewHead(p, d).value, Opposite(d)) == Some(p)
  {
  }

  /** Different headings lead to different cells. */
  lemma StepsDiffer(p: Coordinate, d1: Direction, d2: Direction)
    requires d1 != NONE && d2 != NONE && d1 != d2
    ensures NewHead(p, d1) != NewHead(p, d2)
  {
  }

  /** Segment i of the initial body (InitSnake): i cells behind `start`,
      against the starting heading. */
  function SegmentBehind(start: Coordinate, heading: Direction, i: int): Coordinate
  {
    match heading
    case UP => Coordinate(start.x, start.y + i)
    case DOWN => Coordinate(start.x, start.y - i)
    case LEFT => Coordinate(start.x + i, start.y)
    case RIGHT => Coordinate(start.x - i, start.y)
    case NONE => Coordinate(0, 0)
  }

  /** The body InitSnake lays out: head at `start`, each further segment one
      step back, so that moving along `heading` from segment i + 1 reaches
      segment i. */
  function InitialBody(start: Coordinate, heading: Direction, length: nat): (body: seq<Coordinate>)
    requires heading != NONE
    ensures |body| == length
    ensures length > 0 ==> body[0] == start
    ensures forall i :: 0 <= i < length - 1 ==> NewHead(body[i + 1], heading) == Some(body[i])
    ensures Distinct(body)
  {
    seq(length, i => SegmentBehind(start, heading, i))
  }
}
