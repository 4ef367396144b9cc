/** The selection loop both scripts use to choose among scored candidates:
    start from a floor score, walk the candidates in order and take one only
    when its score is strictly greater than the best so far.  Ties therefore
    go to the earliest candidate, and nothing is chosen when no score beats
    the floor. */
module Picks {
  import opened Text

  /** Index of the candidate the loop ends up with, if any. */
  function FirstBest(scores: seq<real>, floor: real): (r: Option<nat>)
    ensures r.None? <==> forall i :: 0 <= i < |scores| ==> scores[i] <= floor
    ensures r.Some? ==> r.value < |scores| && floor < scores[r.value]
    ensures r.Some? ==> forall i :: 0 <= i < |scores| ==> scores[i] <= scores[r.value]
    ensures r.Some? ==> forall i :: 0 <= i < r.value ==> scores[i] < scores[r.value]
    decreases |scores|
  {
    if scores == [] then None
    else
      var prev := FirstBest(scores[..|scores| - 1], floor);
      var best := if prev.None? then floor else scores[prev.value];
      if scores[|scores| - 1] > best then Some(|scores| - 1) else prev
  }

  /** The best score the loop ends with: the floor when nothing was chosen. */
  function BestScore(scores: seq<real>, floor: real): (b: real)
    ensures floor <= b
    ensures forall i :: 0 <= i < |scores| ==> scores[i] <= b
    ensures b == floor || exists i :: 0 <= i < |scores| && scores[i] == b
  {
    match FirstBest(scores, floor)
    case None => floor
    case Some(i) => scores[i]
  }

  /** The loop as the scripts write it, with its invariant spelled out; it
      computes `FirstBest` and `BestScore`. */
  method PickFirstBest(scores: seq<real>, floor: real) returns (best: Option<nat>, bestScore: real)
    ensures best == FirstBest(scores, floor) && bestScore == BestScore(scores, floor)
  {
    best := None;
    bestScore := floor;
    var i := 0;
    while i < |scores|
      invariant 0 <= i <= |scores|
      invariant best == FirstBest(scores[..i], floor)
      invariant bestScore == BestScore(scores[..i], floor)
    {
      assert scores[..i + 1][..i] == scores[..i];
      if scores[i] > bestScore {
        best := Some(i);
        bestScore := scores[i];
      }
      i := i + 1;
    }
    assert scores[..i] == scores;
  }
}
