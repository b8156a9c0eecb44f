/** The drawing session: the component's state `{isDrawing, points, score,
    bestScore}` and its event handlers, each taken as one atomic transition.

    `mousedown` starts a stroke, `mousemove` extends it, `mouseup` and
    `mouseleave` both end it (and score it when it is long enough), and the
    reset button clears the canvas.
 */
module Session {
  import opened Geometry
  import opened Optional
  import Sampler
  import Scorer

  datatype Session = Session(isDrawing: bool, points: seq<Point>, score: Option<int>, bestScore: int)

  /** The state on mount: not drawing, no points, no score, best score 0. */
  const Initial := Session(false, [], None, 0)

  /** What every reachable session satisfies. */
  predicate Valid(s: Session) {
    && Sampler.Spaced(s.points)
    && (s.isDrawing ==> |s.points| > 0)
    && (s.score.Some? ==> 1 <= s.score.value <= 100)
    && 0 <= s.bestScore <= 100
  }

  lemma InitialValid()
    ensures Valid(Initial)
  {
  }

  /** `startDrawing`: a new stroke holding only the pressed position; the last
      score is hidden and the best score kept. */
  function StartDrawing(s: Session, pos: Point): (r: Session)
    ensures r.isDrawing && r.points == [pos] && r.score == None
    ensures r.bestScore == s.bestScore
    ensures Valid(s) ==> Valid(r)
  {
    Session(true, [pos], None, s.bestScore)
  }

  /** The session after a pointer move, and the segment drawn for it. */
  datatype Drawn = Drawn(next: Session, segment: Option<Sampler.Segment>)

  /** `draw`: ignored unless a stroke is in progress; otherwise the sampler
      decides whether the position joins the stroke. */
  function Draw(s: Session, pos: Point, sqrt: real -> real): (r: Drawn)
    ensures !s.isDrawing ==> r == Drawn(s, None)
    ensures r.next.isDrawing == s.isDrawing
    ensures r.next.score == s.score && r.next.bestScore == s.bestScore
    ensures s.isDrawing ==> r.next.points == Sampler.Extend(s.points, pos, sqrt).points
    ensures s.isDrawing ==> r.segment == Sampler.Extend(s.points, pos, sqrt).segment
    ensures Valid(s) ==> Valid(r.next)
  {
    if !s.isDrawing then
      Drawn(s, None)
    else
      var step := Sampler.Extend(s.points, pos, sqrt);
      Drawn(s.(points := step.points), step.segment)
  }

  /** `stopDrawing`, fired by both `mouseup` and `mouseleave`: ends the stroke
      and, when it has at least `MinPoints` points, scores it and raises the
      best score to it. The points are kept either way. */
  function StopDrawing(s: Session, sqrt: real -> real): (r: Session)
    requires IsSqrt(sqrt) && Valid(s)
    ensures !s.isDrawing ==> r == s
    ensures !r.isDrawing && r.points == s.points
    ensures s.isDrawing && |s.points| < Scorer.MinPoints ==> r.score == s.score && r.bestScore == s.bestScore
    ensures s.isDrawing && |s.points| >= Scorer.MinPoints ==>
      && Scorer.AvgRadius(s.points, sqrt) > 0.0
      && r.score == Some(Scorer.CircleScore(s.points, sqrt))
      && r.bestScore >= r.score.value
      && (r.bestScore == r.score.value || r.bestScore == s.bestScore)
    ensures r.bestScore >= s.bestScore
    ensures Valid(r)
  {
    if !s.isDrawing then
      s
    else if |s.points| < Scorer.MinPoints then
      s.(isDrawing := false)
    else
      Scorer.SpacedStrokeHasPositiveRadius(s.points, sqrt);
      var circleScore := Scorer.CircleScore(s.points, sqrt);
      var best := if circleScore > s.bestScore then circleScore else s.bestScore;
      s.(isDrawing := false, score := Some(circleScore), bestScore := best)
  }

  /** `clearCanvas`: forgets the stroke and the score, keeps the best score. */
  function ClearCanvas(s: Session): (r: Session)
    ensures !r.isDrawing && r.points == [] && r.score == None
    ensures r.bestScore == s.bestScore
    ensures Valid(s) ==> Valid(r)
  {
    Session(false, [], None, s.bestScore)
  }

  /** The events the component listens to. */
  datatype Event =
    | MouseDown(pos: Point)
    | MouseMove(pos: Point)
    | MouseUp
    | MouseLeave
    | Clear

  function Handle(s: Session, e: Event, sqrt: real -> real): (r: Session)
    requires IsSqrt(sqrt) && Valid(s)
    ensures Valid(r)
    ensures r.bestScore >= s.bestScore
  {
    match e
    case MouseDown(pos) => StartDrawing(s, pos)
    case MouseMove(pos) => Draw(s, pos, sqrt).next
    case MouseUp => StopDrawing(s, sqrt)
    case MouseLeave => StopDrawing(s, sqrt)
    case Clear => ClearCanvas(s)
  }

  /** The session after a sequence of events handled in arrival order. */
  function Run(s: Session, events: seq<Event>, sqrt: real -> real): (r: Session)
    requires IsSqrt(sqrt) && Valid(s)
    ensures Valid(r)
    ensures r.bestScore >= s.bestScore
    decreases |events|
  {
    if |events| == 0 then s
    else Run(Handle(s, events[0], sqrt), events[1..], sqrt)
  }

  /** Every session reachable from the initial one keeps consecutive points
      3 apart, never draws with an empty stroke, shows only scores in
      [1, 100], and has a best score in [0, 100]. */
  lemma ReachableSessionsValid(events: seq<Event>, sqrt: real -> real)
    requires IsSqrt(sqrt)
    ensures Valid(Run(Initial, events, sqrt))
  {
    InitialValid();
  }

  /** Moving twice to the same position changes the session at most once,
      and the second move draws nothing. */
  lemma DrawIdempotent(s: Session, pos: Point, sqrt: real -> real)
    ensures var once := Draw(s, pos, sqrt).next;
      Draw(once, pos, sqrt) == Drawn(once, None)
  {
    Sampler.ExtendIdempotent(s.points, pos, sqrt);
  }

  function Moves(pos: Point, k: nat): (r: seq<Event>)
    ensures |r| == k
  {
    seq(k, _ => MouseMove(pos))
  }

  /** A position within 3 of the end of the stroke, reported any number of
      times, leaves the session as it was. */
  lemma {:induction false} NearDuplicateMovesChangeNothing(s: Session, pos: Point, k: nat, sqrt: real -> real)
    requires IsSqrt(sqrt) && Valid(s)
    requires |s.points| > 0 && !Sampler.FarEnough(s.points[|s.points| - 1], pos)
    ensures Run(s, Moves(pos, k), sqrt) == s
  {
    if k > 0 {
      assert Moves(pos, k)[0] == MouseMove(pos);
      assert Moves(pos, k)[1..] == Moves(pos, k - 1);
      assert Handle(s, MouseMove(pos), sqrt) == s;
      NearDuplicateMovesChangeNothing(s, pos, k - 1, sqrt);
    }
  }
}
