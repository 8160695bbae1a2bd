/** The rule-based Eisenhower quadrant of an (urgency, importance) pair. */
module Quadrants {

  /** The score at or above which an axis counts as "high". */
  const Threshold: int := 5

  const DoNow: string := "Do Now"
  const Schedule: string := "Schedule"
  const Delegate: string := "Delegate"
  const Eliminate: string := "Eliminate"

  /** The four labels a quadrant can carry. */
  predicate IsLabel(q: string) {
    q == DoNow || q == Schedule || q == Delegate || q == Eliminate
  }

  /** Reference table: the label of a cell of the matrix, given whether
      each axis is high. */
  function Cell(urgent: bool, important: bool): string {
    if urgent then (if important then DoNow else Delegate)
    else (if important then Schedule else Eliminate)
  }

  /** `determine_quadrant`: an if/elif chain over the two scores. It is total,
      never yields the empty "unclassified" label, and depends only on which
      side of the threshold each score lies. */
  function DetermineQuadrant(urgency: int, importance: int): (q: string)
    ensures IsLabel(q) && q != ""
    ensures q == Cell(urgency >= Threshold, importance >= Threshold)
  {
    if urgency >= Threshold && importance >= Threshold then DoNow
    else if urgency < Threshold && importance >= Threshold then Schedule
    else if urgency >= Threshold && importance < Threshold then Delegate
    else Eliminate
  }

  /** Each label is produced exactly on its own region of the plane. */
  lemma QuadrantRegions(u: int, i: int)
    ensures DetermineQuadrant(u, i) == DoNow <==> u >= Threshold && i >= Threshold
    ensures DetermineQuadrant(u, i) == Schedule <==> u < Threshold && i >= Threshold
    ensures DetermineQuadrant(u, i) == Delegate <==> u >= Threshold && i < Threshold
    ensures DetermineQuadrant(u, i) == Eliminate <==> u < Threshold && i < Threshold
  {
  }

  /** The four corners around the threshold. */
  lemma QuadrantBoundaries()
    ensures DetermineQuadrant(5, 5) == DoNow
    ensures DetermineQuadrant(4, 5) == Schedule
    ensures DetermineQuadrant(5, 4) == Delegate
    ensures DetermineQuadrant(4, 4) == Eliminate
  {
  }

  /** Scores on the same side of the threshold on both axes get the same label. */
  lemma QuadrantDependsOnlyOnSides(u1: int, i1: int, u2: int, i2: int)
    requires (u1 >= Threshold) == (u2 >= Threshold)
    requires (i1 >= Threshold) == (i2 >= Threshold)
    ensures DetermineQuadrant(u1, i1) == DetermineQuadrant(u2, i2)
  {
  }
}
