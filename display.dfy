/** The heads-up display of a level: the score and its star rating, the target and
    remaining texts, the best star count stored for the scene, and the end screen. */
module Display {
  import opened Clock

  /** The level's star score thresholds score1Star, score2Star and score3Star. */
  datatype Thresholds = Thresholds(one: int, two: int, three: int)

  /** CalculateStarIndex: the 3-star threshold is checked first, then 2, then 1. */
  function StarIndex(score: int, th: Thresholds): (r: int)
    ensures 0 <= r <= 3
    ensures r == 3 <==> score >= th.three
    ensures r == 2 <==> score < th.three && score >= th.two
    ensures r == 1 <==> score < th.three && score < th.two && score >= th.one
  {
    if score >= th.three then 3
    else if score >= th.two then 2
    else if score >= th.one then 1
    else 0
  }

  predicate Ordered(th: Thresholds)
  {
    th.one <= th.two <= th.three
  }

  /** How many of the three thresholds a score reaches. */
  function Reached(score: int, th: Thresholds): nat
  {
    (if score >= th.one then 1 else 0) + (if score >= th.two then 1 else 0) + (if score >= th.three then 1 else 0)
  }

  /** With ordered thresholds the star index is the number of thresholds reached,
      and a higher score never shows fewer stars. */
  lemma StarIndexCountsThresholds(score: int, th: Thresholds)
    requires Ordered(th)
    ensures StarIndex(score, th) == Reached(score, th)
  {
  }

  lemma StarIndexMonotone(a: int, b: int, th: Thresholds)
    requires Ordered(th) && a <= b
    ensures StarIndex(a, th) <= StarIndex(b, th)
  {
    StarIndexCountsThresholds(a, th);
    StarIndexCountsThresholds(b, th);
  }

  /** What the game-over screen was asked to show. */
  datatype Outcome = Won(score: int, stars: int) | Lost

  /** The level types a level announces to the display. */
  datatype LevelType = MovesType | ObstacleType | TimerType

  class DisplayController {
    /** The enabled flags of the star images. */
    const stars: array<bool>
    const thresholds: Thresholds
    var currentStarIndex: int
    /** The texts of the score, target and remaining fields. */
    var scoreText: string
    var targetText: string
    var remainingText: string
    /** The captions under the target and remaining fields. */
    var targetCaption: string
    var remainingCaption: string
    /** The best star count stored for this scene. */
    var bestStars: int
    /** The game-over screen, once shown. */
    var shown: seq<Outcome>

    constructor (starCount: nat, th: Thresholds, storedBest: int)
      ensures stars.Length == starCount && fresh(stars) && thresholds == th
      ensures currentStarIndex == 0 && bestStars == storedBest && shown == []
      ensures scoreText == "" && targetText == "" && remainingText == ""
      ensures targetCaption == "" && remainingCaption == ""
    {
      stars := new bool[starCount](_ => false);
      thresholds := th;
      currentStarIndex := 0;
      bestStars := storedBest;
      shown := [];
      scoreText, targetText, remainingText := "", "", "";
      targetCaption, remainingCaption := "", "";
    }

    /** Start: shows the current star index. */
    method Start()
      modifies stars
      ensures forall i | 0 <= i < stars.Length :: stars[i] == (i == currentStarIndex)
    {
      UpdateStarDisplay(currentStarIndex);
    }

    /** Exactly the star at index k is enabled. */
    method UpdateStarDisplay(k: int)
      modifies stars
      ensures forall i | 0 <= i < stars.Length :: stars[i] == (i == k)
    {
      var i := 0;
      while i < stars.Length
        invariant 0 <= i <= stars.Length
        invariant forall j | 0 <= j < i :: stars[j] == (j == k)
      {
        stars[i] := i == k;
        i := i + 1;
      }
    }

    /** Shows the score and its star rating. */
    method SetScore(score: int)
      modifies this, stars
      ensures scoreText == IntToString(score)
      ensures currentStarIndex == StarIndex(score, thresholds)
      ensures forall i | 0 <= i < stars.Length :: stars[i] == (i == currentStarIndex)
      ensures targetText == old(targetText) && remainingText == old(remainingText)
      ensures bestStars == old(bestStars) && shown == old(shown)
      ensures targetCaption == old(targetCaption) && remainingCaption == old(remainingCaption)
    {
      scoreText := IntToString(score);
      var visible := StarIndex(score, thresholds);
      UpdateStarDisplay(visible);
      currentStarIndex := visible;
    }

    method SetTarget(target: int)
      modifies this
      ensures targetText == IntToString(target)
      ensures scoreText == old(scoreText) && remainingText == old(remainingText)
      ensures currentStarIndex == old(currentStarIndex) && bestStars == old(bestStars) && shown == old(shown)
      ensures targetCaption == old(targetCaption) && remainingCaption == old(remainingCaption)
    {
      targetText := IntToString(target);
    }

    /** SetRemaining(string); the integer overload passes the number's text. */
    method SetRemaining(remaining: string)
      modifies this
      ensures remainingText == remaining
      ensures scoreText == old(scoreText) && targetText == old(targetText)
      ensures currentStarIndex == old(currentStarIndex) && bestStars == old(bestStars) && shown == old(shown)
      ensures targetCaption == old(targetCaption) && remainingCaption == old(remainingCaption)
    {
      remainingText := remaining;
    }

    /** SetLevelType: a timer level counts time, the others moves; an obstacle level's
        target is the bubbles left, the others' a score. */
    method SetLevelType(t: LevelType)
      modifies this
      ensures remainingCaption == if t == TimerType then "time remaining" else "moves remaining"
      ensures targetCaption == if t == ObstacleType then "bubbles remaining" else "target score"
      ensures scoreText == old(scoreText) && targetText == old(targetText) && remainingText == old(remainingText)
      ensures currentStarIndex == old(currentStarIndex) && bestStars == old(bestStars) && shown == old(shown)
    {
      match t {
        case MovesType =>
          remainingCaption := "moves remaining";
          targetCaption := "target score";
        case ObstacleType =>
          remainingCaption := "moves remaining";
          targetCaption := "bubbles remaining";
        case TimerType =>
          remainingCaption := "time remaining";
          targetCaption := "target score";
      }
    }

    /** The win screen with the current star index; the stored best becomes the larger
        of the old best and that index. */
    method OnGameWin(score: int)
      modifies this
      ensures shown == old(shown) + [Won(score, currentStarIndex)]
      ensures bestStars == if old(currentStarIndex) > old(bestStars) then old(currentStarIndex) else old(bestStars)
      ensures bestStars >= old(bestStars) && bestStars >= currentStarIndex
      ensures currentStarIndex == old(currentStarIndex)
      ensures scoreText == old(scoreText) && targetText == old(targetText) && remainingText == old(remainingText)
      ensures targetCaption == old(targetCaption) && remainingCaption == old(remainingCaption)
    {
      shown := shown + [Won(score, currentStarIndex)];
      if currentStarIndex > bestStars {
        bestStars := currentStarIndex;
      }
    }

    method OnGameLose()
      modifies this
      ensures shown == old(shown) + [Lost]
      ensures bestStars == old(bestStars) && currentStarIndex == old(currentStarIndex)
      ensures scoreText == old(scoreText) && targetText == old(targetText) && remainingText == old(remainingText)
      ensures targetCaption == old(targetCaption) && remainingCaption == old(remainingCaption)
    {
      shown := shown + [Lost];
    }
  }
}
