/**
 * The population controller: the nearest-wall scan, the all-dead test and the generation
 * transition that picks a reference bird and corrects every neuron toward it.
 */
module Games {
  import opened Wrappers
  import opened Geometry
  import opened Neurons
  import opened Birds
  import opened WallField

  /** The farthest a wall may be ahead of the bird and still be seen. */
  const SightRange: int := 1920
  /** Walls whose top is not below this are ignored by the nearest-wall scan. */
  const TopMargin: int := 20
  /** The starting values of the best-score and worst-score scan. */
  const InitialMaxScore: real := 0.0
  const InitialMinScore: real := 100.0
  /** A best-minus-worst spread below this means no reference bird. */
  const MinSpread: real := 0.5

  /** How far the wall's right edge is ahead of a bird whose left edge is at `left`. */
  function Distance(w: Rect, left: int): int {
    w.Right() - left
  }

  /** Whether `closest_wall` considers the wall at all. */
  predicate Qualifies(w: Rect, left: int) {
    0 < Distance(w, left) <= SightRange && w.Top() > TopMargin
  }

  /** The top wall of a new pair is never considered; the bottom one is, once it is in range. */
  lemma NearestIsLowerWall(screenWidth: int, screenHeight: int, height: int, left: int)
    requires Margin <= height <= screenHeight - Margin - Gap
    ensures !Qualifies(NewPair(screenWidth, screenHeight, height)[0], left)
    ensures Qualifies(NewPair(screenWidth, screenHeight, height)[1], left) <==>
              0 < Distance(NewPair(screenWidth, screenHeight, height)[1], left) <= SightRange
  {
  }

  /**
   * Once the nearest wall is the lower wall of a spawned pair, the third decision input is
   * the bottom edge of the gap, between 400 and `screenHeight - 100`, and the fourth is the
   * pair's right edge.
   */
  lemma GapBottomIsWallInput(screenWidth: int, screenHeight: int, height: int, rect: Rect, speed: int)
    requires Margin <= height <= screenHeight - Margin - Gap
    ensures DecisionInputs(rect, speed, Some(NewPair(screenWidth, screenHeight, height)[1]))[2] ==
              NewPair(screenWidth, screenHeight, height)[0].Bottom() + Gap == height + Gap
    ensures Margin + Gap <= DecisionInputs(rect, speed, Some(NewPair(screenWidth, screenHeight, height)[1]))[2] <= screenHeight - Margin
    ensures DecisionInputs(rect, speed, Some(NewPair(screenWidth, screenHeight, height)[1]))[3] ==
              screenWidth + ScrollStep + WallWidth
  {
  }

  // ---- The score scan of `finish` ----

  /** The running `max_score` after the scan, one score at a time. */
  function MaxScore(scores: seq<real>): real
    decreases |scores|
  {
    if scores == [] then InitialMaxScore
    else
      var m := MaxScore(scores[..|scores| - 1]);
      if scores[|scores| - 1] > m then scores[|scores| - 1] else m
  }

  /** The running `min_score` after the scan, one score at a time. */
  function MinScore(scores: seq<real>): real
    decreases |scores|
  {
    if scores == [] then InitialMinScore
    else
      var m := MinScore(scores[..|scores| - 1]);
      if scores[|scores| - 1] < m then scores[|scores| - 1] else m
  }

  /** The running `max_bird` after the scan: it moves only on a strictly greater score. */
  function FirstBest(scores: seq<real>): (r: Option<nat>)
    ensures r.Some? ==> r.value < |scores|
    decreases |scores|
  {
    if scores == [] then None
    else if scores[|scores| - 1] > MaxScore(scores[..|scores| - 1]) then Some(|scores| - 1)
    else FirstBest(scores[..|scores| - 1])
  }

  /** The bird every neuron is corrected toward, after the spread gate. */
  function Reference(scores: seq<real>): (r: Option<nat>)
    ensures r.Some? ==> r.value < |scores|
  {
    if MaxScore(scores) - MinScore(scores) < MinSpread then None else FirstBest(scores)
  }

  /** `max_score` is the best score, or 0 when no score is above 0. */
  lemma {:induction false} MaxScoreIsMaximum(scores: seq<real>)
    ensures MaxScore(scores) >= InitialMaxScore
    ensures forall i :: 0 <= i < |scores| ==> scores[i] <= MaxScore(scores)
    ensures MaxScore(scores) == InitialMaxScore || exists i :: 0 <= i < |scores| && scores[i] == MaxScore(scores)
    decreases |scores|
  {
    if scores != [] {
      var prefix := scores[..|scores| - 1];
      MaxScoreIsMaximum(prefix);
      assert forall i :: 0 <= i < |prefix| ==> prefix[i] == scores[i];
    }
  }

  /** `min_score` is the worst score, or 100 when no score is below 100. */
  lemma {:induction false} MinScoreIsMinimum(scores: seq<real>)
    ensures MinScore(scores) <= InitialMinScore
    ensures forall i :: 0 <= i < |scores| ==> MinScore(scores) <= scores[i]
    ensures MinScore(scores) == InitialMinScore || exists i :: 0 <= i < |scores| && scores[i] == MinScore(scores)
    decreases |scores|
  {
    if scores != [] {
      var prefix := scores[..|scores| - 1];
      MinScoreIsMinimum(prefix);
      assert forall i :: 0 <= i < |prefix| ==> prefix[i] == scores[i];
    }
  }

  /** `max_bird` is the first bird holding the best score, and there is none when no score is above 0. */
  lemma {:induction false} FirstBestIsFirstMaximum(scores: seq<real>)
    ensures FirstBest(scores).None? <==> forall i :: 0 <= i < |scores| ==> scores[i] <= InitialMaxScore
    ensures FirstBest(scores).Some? ==>
              var b := FirstBest(scores).value;
              b < |scores| && scores[b] == MaxScore(scores) && scores[b] > InitialMaxScore &&
              forall j :: 0 <= j < b ==> scores[j] < scores[b]
    decreases |scores|
  {
    if scores != [] {
      var prefix := scores[..|scores| - 1];
      FirstBestIsFirstMaximum(prefix);
      MaxScoreIsMaximum(prefix);
      assert forall i :: 0 <= i < |prefix| ==> prefix[i] == scores[i];
    }
  }

  /**
   * The reference bird: none when the spread between the best score (floored at 0) and the
   * worst (capped at 100) is below one half or no score is above 0; otherwise the first bird
   * whose score is the best, and that score is above 0.
   */
  lemma ReferenceChoice(scores: seq<real>)
    ensures Reference(scores).None? <==>
              MaxScore(scores) - MinScore(scores) < MinSpread ||
              forall i :: 0 <= i < |scores| ==> scores[i] <= InitialMaxScore
    ensures Reference(scores).Some? ==>
              var b := Reference(scores).value;
              b < |scores| && scores[b] > InitialMaxScore &&
              (forall j :: 0 <= j < |scores| ==> scores[j] <= scores[b]) &&
              (forall j :: 0 <= j < b ==> scores[j] < scores[b])
  {
    FirstBestIsFirstMaximum(scores);
    MaxScoreIsMaximum(scores);
  }

  /** Scores 10.0 and 10.3 are too close: no reference bird. */
  lemma CloseScoresGiveNoReference()
    ensures Reference([10.0, 10.3]) == None
  {
    assert [10.0, 10.3][..1] == [10.0];
    assert [10.0][..0] == [];
  }

  /**
   * Because the worst-score scan starts at 100, two equally close scores above 100.5 still
   * yield a reference bird: the spread is measured against 100, not against the worst bird.
   */
  lemma HighCloseScoresStillGiveReference()
    ensures Reference([110.0, 110.3]) == Some(1)
  {
    assert [110.0, 110.3][..1] == [110.0];
    assert [110.0][..0] == [];
  }

  // ---- The correction loop of `finish` ----

  /** The reference bird's weights as the bird at the current position of the loop reads them. */
  function ReferenceWeights(ws: seq<seq<real>>, reference: Option<nat>): Option<seq<real>>
    requires reference.Some? ==> reference.value < |ws|
  {
    if reference.None? then None else Some(ws[reference.value])
  }

  predicate AllFourWeights(ws: seq<seq<real>>) {
    forall j :: 0 <= j < |ws| ==> |ws[j]| == InputCount
  }

  predicate AllDrawsWellFormed(ds: seq<Draw>) {
    forall j :: 0 <= j < |ds| ==> WellFormed(ds[j])
  }

  /**
   * Every bird's weights after the first `k` birds have been corrected, in list order. Each
   * correction reads the reference bird's weights as they are at that moment, so birds after
   * the reference one see its already corrected weights.
   */
  function CorrectFirst(ws: seq<seq<real>>, reference: Option<nat>, ds: seq<Draw>, k: nat): (r: seq<seq<real>>)
    requires k <= |ws| == |ds| && AllFourWeights(ws) && AllDrawsWellFormed(ds)
    requires reference.Some? ==> reference.value < |ws|
    ensures |r| == |ws| && AllFourWeights(r)
    decreases k
  {
    if k == 0 then ws
    else
      var prev := CorrectFirst(ws, reference, ds, k - 1);
      prev[k - 1 := Corrected(prev[k - 1], ReferenceWeights(prev, reference), ds[k - 1])]
  }

  /** The weights of every bird after the whole correction loop. */
  function CorrectAll(ws: seq<seq<real>>, reference: Option<nat>, ds: seq<Draw>): (r: seq<seq<real>>)
    requires |ws| == |ds| && AllFourWeights(ws) && AllDrawsWellFormed(ds)
    requires reference.Some? ==> reference.value < |ws|
    ensures |r| == |ws| && AllFourWeights(r)
  {
    CorrectFirst(ws, reference, ds, |ws|)
  }

  /**
   * After `k` corrections, the birds not yet reached are untouched, and each bird reached was
   * corrected once from its own original weights toward the reference bird's weights as they
   * were at its turn: the original ones if the reference comes later (or is the bird itself),
   * the corrected ones if the reference came earlier.
   */
  lemma {:induction false} CorrectFirstAt(ws: seq<seq<real>>, reference: Option<nat>, ds: seq<Draw>, k: nat)
    requires k <= |ws| == |ds| && AllFourWeights(ws) && AllDrawsWellFormed(ds)
    requires reference.Some? ==> reference.value < |ws|
    ensures forall j :: k <= j < |ws| ==> CorrectFirst(ws, reference, ds, k)[j] == ws[j]
    ensures forall j :: 0 <= j < k ==>
              CorrectFirst(ws, reference, ds, k)[j] ==
              Corrected(ws[j],
                        if reference.None? then None
                        else if reference.value < j then Some(CorrectFirst(ws, reference, ds, k)[reference.value])
                        else Some(ws[reference.value]),
                        ds[j])
    decreases k
  {
    if k > 0 {
      CorrectFirstAt(ws, reference, ds, k - 1);
    }
  }

  /** The reference bird itself, on the imitation branch, keeps its weights. */
  lemma ReferenceKeepsItsWeights(ws: seq<seq<real>>, r: nat, ds: seq<Draw>)
    requires |ws| == |ds| && AllFourWeights(ws) && AllDrawsWellFormed(ds) && r < |ws|
    requires Imitates(Some(ws[r]), ds[r])
    ensures CorrectAll(ws, Some(r), ds)[r] == ws[r]
  {
    CorrectFirstAt(ws, Some(r), ds, |ws|);
    ImitatingSelfIsIdentity(ws[r]);
  }

  /** With no reference bird, every bird restarts from its own draws. */
  lemma NoReferenceRestartsAll(ws: seq<seq<real>>, ds: seq<Draw>)
    requires |ws| == |ds| && AllFourWeights(ws) && AllDrawsWellFormed(ds)
    ensures forall j :: 0 <= j < |ws| ==>
              CorrectAll(ws, None, ds)[j] == Restarted(ds[j].magnitudes, ds[j].signs)
  {
    CorrectFirstAt(ws, None, ds, |ws|);
  }

  /** Weights that start in `[-1, 1]` stay there through a whole correction loop. */
  lemma {:induction false} CorrectFirstBounded(ws: seq<seq<real>>, reference: Option<nat>, ds: seq<Draw>, k: nat)
    requires k <= |ws| == |ds| && AllFourWeights(ws) && AllDrawsWellFormed(ds)
    requires reference.Some? ==> reference.value < |ws|
    requires forall j :: 0 <= j < |ws| ==> UnitBounded(ws[j])
    ensures forall j :: 0 <= j < |ws| ==> UnitBounded(CorrectFirst(ws, reference, ds, k)[j])
    decreases k
  {
    if k > 0 {
      CorrectFirstBounded(ws, reference, ds, k - 1);
    }
  }

  class Game {
    const birds: seq<Bird>
    const walls: Walls

    /** Distinct birds whose neurons have distinct weight buffers of four weights each. */
    ghost predicate Valid() {
      (forall i :: 0 <= i < |birds| ==> birds[i].neuron.weights.Length == InputCount) &&
      (forall i, j :: 0 <= i < |birds| && 0 <= j < |birds| && birds[i].neuron.weights == birds[j].neuron.weights ==> i == j)
    }

    /** Every bird's score, in list order. */
    ghost function Scores(): seq<real>
      reads birds
    {
      seq(|birds|, i requires 0 <= i < |birds| reads birds => birds[i].score)
    }

    /** Every bird's weights, in list order. */
    ghost function Weights(): seq<seq<real>>
      reads set i | 0 <= i < |birds| :: birds[i].neuron.weights
    {
      seq(|birds|, i requires 0 <= i < |birds| reads set j | 0 <= j < |birds| :: birds[j].neuron.weights =>
            birds[i].neuron.weights[..])
    }

    /** The birds must come with neurons of four weights each, no two sharing a weight buffer. */
    constructor (birds: seq<Bird>, walls: Walls)
      requires forall i :: 0 <= i < |birds| ==> birds[i].neuron.weights.Length == InputCount
      requires forall i, j :: 0 <= i < |birds| && 0 <= j < |birds| && birds[i].neuron.weights == birds[j].neuron.weights ==> i == j
      ensures Valid()
      ensures this.birds == birds && this.walls == walls
    {
      this.birds := birds;
      this.walls := walls;
    }

    /**
     * `closest_wall`: among the walls whose top is below 20 and whose right edge is ahead of
     * the first bird by at most 1920, the nearest, the later one on a tie; none if there is none.
     */
    method ClosestWall() returns (r: Option<Rect>)
      requires |birds| > 0
      ensures r.None? <==> forall k :: 0 <= k < |walls.walls| ==> !Qualifies(walls.walls[k], birds[0].rect.Left())
      ensures r.Some? ==>
                exists k :: 0 <= k < |walls.walls| && walls.walls[k] == r.value &&
                  Qualifies(r.value, birds[0].rect.Left()) &&
                  (forall j :: 0 <= j < |walls.walls| && Qualifies(walls.walls[j], birds[0].rect.Left()) ==>
                     Distance(r.value, birds[0].rect.Left()) <= Distance(walls.walls[j], birds[0].rect.Left())) &&
                  (forall j :: k < j < |walls.walls| && Qualifies(walls.walls[j], birds[0].rect.Left()) ==>
                     Distance(r.value, birds[0].rect.Left()) < Distance(walls.walls[j], birds[0].rect.Left()))
    {
      var left := birds[0].rect.Left();
      var ws := walls.walls;
      var closestDistance := SightRange;
      r := None;
      ghost var at := 0;
      for i := 0 to |ws|
        invariant r.None? ==> closestDistance == SightRange && forall j :: 0 <= j < i ==> !Qualifies(ws[j], left)
        invariant r.Some? ==> at < i && ws[at] == r.value && Qualifies(r.value, left) &&
                                closestDistance == Distance(r.value, left)
        invariant forall j :: 0 <= j < i && Qualifies(ws[j], left) ==> closestDistance <= Distance(ws[j], left)
        invariant r.Some? ==> forall j :: at < j < i && Qualifies(ws[j], left) ==> closestDistance < Distance(ws[j], left)
      {
        var distance := ws[i].Right() - left;
        if 0 < distance <= closestDistance && ws[i].y > TopMargin {
          closestDistance := distance;
          r := Some(ws[i]);
          at := i;
        }
      }
    }

    /**
     * `check_for_alive_birds`: `finish` runs exactly when no bird is alive; `finished` tells
     * whether it ran. Otherwise nothing changes.
     */
    method CheckForAliveBirds(now: real, draws: seq<Draw>) returns (finished: bool)
      requires Valid() && |draws| == |birds| && AllDrawsWellFormed(draws)
      modifies walls, birds, set i | 0 <= i < |birds| :: birds[i].neuron.weights
      ensures finished <==> forall i :: 0 <= i < |birds| ==> !old(birds[i].alive)
      ensures !finished ==>
                walls.walls == old(walls.walls) && Weights() == old(Weights()) &&
                forall i :: 0 <= i < |birds| ==>
                  birds[i].alive == old(birds[i].alive) && birds[i].score == old(birds[i].score)
      ensures finished ==>
                walls.walls == [] &&
                Weights() == CorrectAll(old(Weights()), Reference(old(Scores())), draws) &&
                forall i :: 0 <= i < |birds| ==> birds[i].alive && birds[i].score == now
      ensures forall i :: 0 <= i < |birds| ==>
                birds[i].speed == old(birds[i].speed) && birds[i].rect == old(birds[i].rect)
    {
      var endGame := true;
      for i := 0 to |birds|
        invariant endGame <==> forall j :: 0 <= j < i ==> !birds[j].alive
      {
        if endGame {
          if birds[i].alive {
            endGame := false;
          }
        }
      }
      if endGame {
        Finish(now, draws);
      }
      finished := endGame;
    }

    /**
     * The scan at the head of `finish`: best score from 0 with a strict `>`, worst score
     * from 100, then the spread gate.
     */
    method ChooseReference() returns (maxBird: Option<nat>)
      ensures maxBird == Reference(Scores())
    {
      ghost var scores := Scores();
      var maxScore := InitialMaxScore;
      var minScore := InitialMinScore;
      maxBird := None;
      for i := 0 to |birds|
        invariant maxScore == MaxScore(scores[..i]) && minScore == MinScore(scores[..i])
        invariant maxBird == FirstBest(scores[..i])
      {
        assert scores[..i + 1][..i] == scores[..i];
        if birds[i].score > maxScore {
          maxBird := Some(i);
          maxScore := birds[i].score;
        }
        if birds[i].score < minScore {
          minScore := birds[i].score;
        }
      }
      assert scores[..|birds|] == scores;
      if maxScore - minScore < MinSpread {
        maxBird := None;
      }
    }

    /**
     * `finish`: clear the walls, scan the scores for the reference bird, then for each bird
     * in list order correct its neuron toward the reference bird's neuron and resurrect it.
     */
    method Finish(now: real, draws: seq<Draw>)
      requires Valid() && |draws| == |birds| && AllDrawsWellFormed(draws)
      modifies walls, birds, set i | 0 <= i < |birds| :: birds[i].neuron.weights
      ensures walls.walls == []
      ensures Weights() == CorrectAll(old(Weights()), Reference(old(Scores())), draws)
      ensures forall i :: 0 <= i < |birds| ==> birds[i].alive && birds[i].score == now
      ensures forall i :: 0 <= i < |birds| ==>
                birds[i].speed == old(birds[i].speed) && birds[i].rect == old(birds[i].rect)
    {
      ghost var ws0 := Weights();
      ghost var scores0 := Scores();
      walls.walls := [];
      var maxBird := ChooseReference();
      assert maxBird == Reference(scores0);
      CorrectAndResurrect(maxBird, now, draws);
      assert Weights() == CorrectAll(ws0, Reference(scores0), draws);
    }

    /** The last loop of `finish`: `correct` toward the reference bird, then `resurrect`, bird by bird. */
    method CorrectAndResurrect(maxBird: Option<nat>, now: real, draws: seq<Draw>)
      requires Valid() && |draws| == |birds| && AllDrawsWellFormed(draws)
      requires maxBird.Some? ==> maxBird.value < |birds|
      modifies birds, set i | 0 <= i < |birds| :: birds[i].neuron.weights
      ensures Weights() == CorrectAll(old(Weights()), maxBird, draws)
      ensures forall i :: 0 <= i < |birds| ==> birds[i].alive && birds[i].score == now
      ensures forall i :: 0 <= i < |birds| ==>
                birds[i].speed == old(birds[i].speed) && birds[i].rect == old(birds[i].rect)
    {
      ghost var ws0 := Weights();
      var reference: Neuron? := if maxBird.Some? then birds[maxBird.value].neuron else null;
      for i := 0 to |birds|
        invariant Weights() == CorrectFirst(ws0, maxBird, draws, i)
        invariant forall j :: 0 <= j < |birds| ==>
                    birds[j].speed == old(birds[j].speed) && birds[j].rect == old(birds[j].rect) &&
                    (j < i ==> birds[j].alive && birds[j].score == now)
      {
        CorrectAndResurrectBird(i, maxBird, reference, now, draws, ws0);
      }
    }

    /** One turn of that loop: `bird.neuron.correct(max_bird)`, then `bird.resurrect()`, for bird `i`. */
    method CorrectAndResurrectBird(i: nat, maxBird: Option<nat>, reference: Neuron?, now: real,
                                   draws: seq<Draw>, ghost ws0: seq<seq<real>>)
      requires Valid() && i < |birds| == |draws| == |ws0| && AllDrawsWellFormed(draws) && AllFourWeights(ws0)
      requires maxBird.None? ==> reference == null
      requires maxBird.Some? ==> maxBird.value < |birds| && reference == birds[maxBird.value].neuron
      requires Weights() == CorrectFirst(ws0, maxBird, draws, i)
      modifies birds[i], birds[i].neuron.weights
      ensures Weights() == CorrectFirst(ws0, maxBird, draws, i + 1)
      ensures forall j :: 0 <= j < |birds| ==>
                birds[j].speed == old(birds[j].speed) && birds[j].rect == old(birds[j].rect) &&
                (j != i ==> birds[j].alive == old(birds[j].alive) && birds[j].score == old(birds[j].score))
      ensures birds[i].alive && birds[i].score == now
    {
      ghost var before := CorrectFirst(ws0, maxBird, draws, i);
      assert forall j :: 0 <= j < |birds| ==> birds[j].neuron.weights[..] == before[j];
      ghost var after := CorrectFirst(ws0, maxBird, draws, i + 1);
      assert after == before[i := Corrected(before[i], ReferenceWeights(before, maxBird), draws[i])];
      assert reference != null ==> reference.weights[..] == ReferenceWeights(before, maxBird).value;
      var bird := birds[i];
      bird.neuron.Correct(reference, draws[i]);
      bird.Resurrect(now);
      forall j | 0 <= j < |birds|
        ensures birds[j].neuron.weights[..] == after[j]
        ensures birds[j].speed == old(birds[j].speed) && birds[j].rect == old(birds[j].rect)
        ensures j != i ==> birds[j].alive == old(birds[j].alive) && birds[j].score == old(birds[j].score)
      {
        if j != i {
          assert birds[j].neuron.weights != bird.neuron.weights;
          assert birds[j] != bird;
        }
      }
      assert forall j :: 0 <= j < |birds| ==> Weights()[j] == after[j];
    }
  }
}
