/**
 * The reader view's state changes that do not touch the page: the speed
 * control, moving the cursor to a word or to a fraction of the document, and
 * jumping by paragraphs. The view keeps its own copy of the cursor beside the
 * engine's.
 */
module RSVPView {
  import RSVPEngine

  const MinSpeed: real := 200.0
  const MaxSpeed: real := 1200.0

  datatype View = View(engine: RSVPEngine.Engine, currentPosition: int, currentSpeed: real)

  function Max(a: real, b: real): real { if a >= b then a else b }
  function Min(a: real, b: real): real { if a <= b then a else b }

  /** `setSpeed`: the speed is kept within 200 to 1200 words per minute. */
  function SetSpeed(v: View, speed: real): (r: View)
    ensures r.engine == v.engine && r.currentPosition == v.currentPosition
    ensures MinSpeed <= r.currentSpeed <= MaxSpeed
    ensures MinSpeed <= speed <= MaxSpeed ==> r.currentSpeed == speed
    ensures speed < MinSpeed ==> r.currentSpeed == MinSpeed
    ensures speed > MaxSpeed ==> r.currentSpeed == MaxSpeed
  {
    v.(currentSpeed := Min(MaxSpeed, Max(MinSpeed, speed)))
  }

  /** `increaseSpeed`. */
  function IncreaseSpeed(v: View, amount: real): (r: View)
    ensures r.engine == v.engine && r.currentPosition == v.currentPosition
    ensures MinSpeed <= r.currentSpeed <= MaxSpeed
  {
    SetSpeed(v, v.currentSpeed + amount)
  }

  /** `decreaseSpeed`: the speed is floored at 200 before it is set. */
  function DecreaseSpeed(v: View, amount: real): (r: View)
    ensures r.engine == v.engine && r.currentPosition == v.currentPosition
    ensures MinSpeed <= r.currentSpeed <= MaxSpeed
  {
    SetSpeed(v, Max(MinSpeed, v.currentSpeed - amount))
  }

  /** Setting a speed is idempotent, and any speed inside the range is kept. */
  lemma {:induction false} SetSpeedIdempotent(v: View, speed: real)
    ensures SetSpeed(SetSpeed(v, speed), SetSpeed(v, speed).currentSpeed) == SetSpeed(v, speed)
  {
  }

  /** A positive step from an in-range speed raises it by exactly the step
      until it meets the ceiling, and never lowers it. */
  lemma {:induction false} IncreaseSpeedSteps(v: View, amount: real)
    requires MinSpeed <= v.currentSpeed <= MaxSpeed && amount >= 0.0
    ensures var r := IncreaseSpeed(v, amount);
      && v.currentSpeed <= r.currentSpeed
      && (v.currentSpeed + amount <= MaxSpeed ==> r.currentSpeed == v.currentSpeed + amount)
      && (v.currentSpeed + amount > MaxSpeed ==> r.currentSpeed == MaxSpeed)
  {
  }

  /** The floor taken in `decreaseSpeed` changes nothing: it is the same as
      setting the lowered speed directly. */
  lemma {:induction false} DecreaseIsSetLowered(v: View, amount: real)
    ensures DecreaseSpeed(v, amount) == SetSpeed(v, v.currentSpeed - amount)
  {
  }

  /** A positive step from an in-range speed lowers it by exactly the step
      until it meets the floor, and never raises it; raising and then lowering
      by the same step away from the bounds returns to the start. */
  lemma {:induction false} DecreaseSpeedSteps(v: View, amount: real)
    requires MinSpeed <= v.currentSpeed <= MaxSpeed && amount >= 0.0
    ensures var r := DecreaseSpeed(v, amount);
      && r.currentSpeed <= v.currentSpeed
      && (v.currentSpeed - amount >= MinSpeed ==> r.currentSpeed == v.currentSpeed - amount)
      && (v.currentSpeed - amount < MinSpeed ==> r.currentSpeed == MinSpeed)
    ensures v.currentSpeed + amount <= MaxSpeed ==> DecreaseSpeed(IncreaseSpeed(v, amount), amount) == v
  {
  }

  /** `setReadingPosition`: the view stores the position as given while the
      engine clamps its own copy to the words. */
  function SetReadingPosition(v: View, position: int): (r: View)
    ensures r.currentSpeed == v.currentSpeed
    ensures r.currentPosition == position
    ensures r.engine == RSVPEngine.SetCurrentPosition(v.engine, position)
    ensures r.engine.words == v.engine.words && r.engine.breakPoints == v.engine.breakPoints
    ensures RSVPEngine.Valid(v.engine) ==> RSVPEngine.Valid(r.engine)
  {
    v.(currentPosition := position, engine := RSVPEngine.SetCurrentPosition(v.engine, position))
  }

  /** The two cursors agree exactly when the position names a word. */
  lemma {:induction false} ReadingPositionAgrees(v: View, position: int)
    requires |v.engine.words| > 0
    ensures var r := SetReadingPosition(v, position);
      r.engine.currentPosition == r.currentPosition <==> 0 <= position < |v.engine.words|
  {
  }

  /** `Math.floor` on a product of JavaScript numbers. */
  function Floor(x: real): (r: int)
    ensures r as real <= x < r as real + 1.0
  {
    x.Floor
  }

  /** `setProgress`: the word at `floor(progress * total)`. */
  function SetProgress(v: View, progress: real): (r: View)
    ensures r.currentSpeed == v.currentSpeed
    ensures r.currentPosition as real <= progress * |v.engine.words| as real < r.currentPosition as real + 1.0
    ensures r.engine == RSVPEngine.SetCurrentPosition(v.engine, r.currentPosition)
    ensures 0.0 <= progress <= 1.0 ==> 0 <= r.currentPosition <= |v.engine.words|
  {
    var total := RSVPEngine.GetTotalWords(v.engine);
    assert 0.0 <= progress <= 1.0 ==> progress * total as real <= total as real by {
      if 0.0 <= progress <= 1.0 {
        assert progress * total as real <= 1.0 * total as real;
      }
    }
    SetReadingPosition(v, Floor(progress * total as real))
  }

  /** Progress 0 opens the first word; progress 1 opens the last word in the
      engine while the view records one past it. */
  lemma {:induction false} SetProgressEnds(v: View)
    requires |v.engine.words| > 0
    ensures SetProgress(v, 0.0).engine.currentPosition == 0
    ensures SetProgress(v, 1.0).engine.currentPosition == |v.engine.words| - 1
    ensures SetProgress(v, 1.0).currentPosition == |v.engine.words|
  {
  }

  /** Progress at the fraction `k / total` opens word `k`. */
  lemma {:induction false} SetProgressAtWord(v: View, k: nat)
    requires k < |v.engine.words|
    ensures var r := SetProgress(v, k as real / |v.engine.words| as real);
      r.currentPosition == k && r.engine.currentPosition == k
  {
    var n := |v.engine.words| as real;
    assert k as real / n * n == k as real;
  }

  /** `jumpParagraph`: the engine jumps forward or back and the view takes
      the engine's cursor. */
  function JumpParagraph(v: View, forward: bool): (r: View)
    ensures r.currentSpeed == v.currentSpeed
    ensures r.engine.words == v.engine.words
    ensures r.currentPosition == r.engine.currentPosition
  {
    var e := if forward then RSVPEngine.JumpToNextParagraph(v.engine)
             else RSVPEngine.JumpToPreviousParagraph(v.engine);
    v.(engine := e, currentPosition := e.currentPosition)
  }

  /** After a jump the view's cursor names a word of a valid engine, forward
      jumps never move back and backward jumps never move forward. */
  lemma {:induction false} JumpParagraphMoves(v: View, forward: bool)
    requires RSVPEngine.Valid(v.engine)
    ensures var r := JumpParagraph(v, forward);
      && RSVPEngine.Valid(r.engine)
      && (|r.engine.words| > 0 ==> 0 <= r.currentPosition < |r.engine.words|)
      && (forward ==> v.engine.currentPosition <= r.currentPosition)
      && (!forward ==> r.currentPosition <= v.engine.currentPosition)
  {
    if forward {
      RSVPEngine.JumpToNextParagraphMoves(v.engine);
    } else {
      RSVPEngine.JumpToPreviousParagraphMoves(v.engine);
    }
  }
}
