/**
 * A balloon: its row, its column, its altitude and whether it has left the grid. Each turn
 * `change_altitude` picks a change of altitude in {-1, 0, 1} with the balloon's strategy,
 * clamps it, and lets the wind at the new altitude carry the balloon; `alive?` marks the
 * balloon dead once it is off the grid's rows.
 */
module LoonBall {
  import opened LoonArea

  /** The strategy names of `Strats`, in order. */
  datatype Strategy = Hotspot | ReverseHotspot | Random

  const Strats: seq<Strategy> := [Hotspot, ReverseHotspot, Random]

  /** update_strategy(i): `Strats[i % Strats.size]`. */
  function StrategyFor(i: nat): Strategy {
    Strats[i % |Strats|]
  }

  /** The strategies are handed out round-robin: each three consecutive indices get all
      three, and the pattern repeats every three. */
  lemma StrategyRoundRobin(i: nat)
    ensures StrategyFor(i + 3) == StrategyFor(i)
    ensures {StrategyFor(i), StrategyFor(i + 1), StrategyFor(i + 2)} == {Hotspot, ReverseHotspot, Random}
  {
    assert (i + 3) % 3 == i % 3;
    assert (i + 1) % 3 == (i % 3 + 1) % 3 && (i + 2) % 3 == (i % 3 + 2) % 3;
  }

  /** The values Ruby's `rand` returns, in the order it is called: call number `pos`
      draws `draws(pos)`, which is mapped onto the requested range. */
  type Draws = nat -> nat

  /** rand(-1..1) */
  function RandSign(draws: Draws, pos: nat): int {
    draws(pos) % 3 - 1
  }

  /** rand(0..1) */
  function RandBit(draws: Draws, pos: nat): int {
    draws(pos) % 2
  }

  /** The fields of a Ball Struct plus its `dead` flag. */
  datatype BallState = BallState(r: int, c: int, a: int, dead: bool)

  /** A live ball is on a row and a column of the grid, at an altitude with winds; a dead one
      may be anywhere. */
  predicate InFlight(area: Area, s: BallState) {
    !s.dead ==> 0 <= s.a < area.alts && 0 <= s.r < area.rows && 0 <= s.c < area.cols
  }

  /** What on_spot compares against: a quarter of mean_score, floor-divided. A ball computes
      mean_score once and keeps it, so the model computes it once per journey and passes the
      quarter down as `threshold`. */
  function Threshold(area: Area): int
    requires area.Valid()
  {
    MeanScore(area) / 4
  }

  /** on_spot: the score `radius` rows further on (the row wrapping around) beats
      `threshold`. */
  predicate OnSpot(area: Area, threshold: int, s: BallState)
    requires area.Valid() && 0 <= s.c < area.cols
  {
    var nextR := (s.r + area.radius) % area.rows;
    area.scores[nextR][s.c] > threshold
  }

  /** A strategy's answer and the position of the next unused draw. */
  datatype Draw = Draw(value: int, pos: nat)

  /** hotspot_strategy, reverse_hotspot_strategy and random_strategy. */
  function Decide(area: Area, threshold: int, s: BallState, strategy: Strategy, draws: Draws, pos: nat): Draw
    requires area.Valid() && 0 <= s.c < area.cols
  {
    match strategy
    case Hotspot => if OnSpot(area, threshold, s) then Draw(-1, pos) else Draw(RandBit(draws, pos), pos + 1)
    case ReverseHotspot => if OnSpot(area, threshold, s) then Draw(RandBit(draws, pos), pos + 1) else Draw(-1, pos)
    case Random => Draw(RandSign(draws, pos), pos + 1)
  }

  /** Every strategy answers -1, 0 or 1 and uses at most one draw; an answer given without
      drawing is a descent. */
  lemma DecideRange(area: Area, threshold: int, s: BallState, strategy: Strategy, draws: Draws, pos: nat)
    requires area.Valid() && 0 <= s.c < area.cols
    ensures var d := Decide(area, threshold, s, strategy, draws, pos);
      && -1 <= d.value <= 1
      && (d.pos == pos || d.pos == pos + 1)
      && (d.pos == pos ==> d.value == -1)
  {
  }

  /** The outcome of change_altitude: the new ball, the change it returns, and the next
      unused draw. */
  datatype Move = Move(next: BallState, change: int, pos: nat)

  /** change_altitude(turn): nothing for a dead ball; otherwise go up at turn 0 and ask the
      strategy later, cancel a descent below altitude 2 and a climb above `alts - 2`, then
      move with the wind at the new altitude over the old cell, the column wrapping. */
  function Step(area: Area, threshold: int, s: BallState, strategy: Strategy, turn: nat, draws: Draws, pos: nat): (m: Move)
    requires area.Valid() && InFlight(area, s)
    ensures InFlight(area, Survey(area, m.next))
  {
    if s.dead then Move(s, 0, pos)
    else
      var d := if turn == 0 then Draw(1, pos) else Decide(area, threshold, s, strategy, draws, pos);
      var raised := if s.a < 2 && d.value < 0 then d.value + 1 else d.value;
      var change := if s.a > area.alts - 2 && raised > 0 then raised - 1 else raised;
      var a := s.a + change;
      var wind := area.winds[a][s.r][s.c];
      Move(BallState(s.r + wind.dr, (s.c + wind.dc) % area.cols, a, false), change, d.pos)
  }

  /** alive?: `dead ||= r < 0 || r >= rows`. */
  function Survey(area: Area, s: BallState): BallState {
    s.(dead := s.dead || s.r < 0 || s.r >= area.rows)
  }

  /** What change_altitude promises: the change is -1, 0 or 1 and is the altitude's change;
      the altitude stays within 0..alts-1 and, once above 0, never returns to 0; the column
      stays on the grid; a dead ball neither moves nor draws; and the first turn climbs
      unless the ball is at the top. */
  lemma StepFacts(area: Area, threshold: int, s: BallState, strategy: Strategy, turn: nat, draws: Draws, pos: nat)
    requires area.Valid() && InFlight(area, s)
    ensures var m := Step(area, threshold, s, strategy, turn, draws, pos);
      && -1 <= m.change <= 1
      && m.next.dead == s.dead
      && (s.dead ==> m == Move(s, 0, pos))
      && (!s.dead ==> m.next.a == s.a + m.change && 0 <= m.next.a < area.alts && 0 <= m.next.c < area.cols)
      && (!s.dead && s.a >= 1 ==> m.next.a >= 1)
      && (!s.dead && turn == 0 ==> m.change == (if s.a > area.alts - 2 then 0 else 1) && m.pos == pos)
      && (m.pos == pos || m.pos == pos + 1)
  {
    if !s.dead && turn > 0 {
      DecideRange(area, threshold, s, strategy, draws, pos);
    }
  }

  /** alive? answers whether the ball is on the grid's rows, and a dead ball stays dead and
      where it was: looking twice changes nothing more. */
  lemma SurveyFacts(area: Area, s: BallState)
    ensures Survey(area, s).dead <==> s.dead || s.r < 0 || s.r >= area.rows
    ensures s.dead ==> Survey(area, s) == s
    ensures Survey(area, Survey(area, s)) == Survey(area, s)
    ensures Survey(area, s).(dead := s.dead) == s
  {
  }

  class Ball {
    var r: int
    var c: int
    var a: int
    var dead: bool
    var strategyName: Strategy

    function State(): BallState
      reads this
    {
      BallState(r, c, a, dead)
    }

    /** Ball.new(r, c, 0): a live ball on the ground. */
    constructor (r: int, c: int)
      ensures State() == BallState(r, c, 0, false) && strategyName == Hotspot
    {
      this.r, this.c, this.a := r, c, 0;
      dead := false;
      strategyName := Hotspot;
    }

    method UpdateStrategy(i: nat)
      modifies this`strategyName
      ensures strategyName == StrategyFor(i)
    {
      strategyName := Strats[i % |Strats|];
    }

    method ChangeAltitude(area: Area, threshold: int, turn: nat, draws: Draws, pos: nat) returns (change: int, next: nat)
      requires area.Valid() && InFlight(area, State())
      modifies this`r, this`c, this`a
      ensures Step(area, threshold, old(State()), strategyName, turn, draws, pos) == Move(State(), change, next)
    {
      if dead {
        return 0, pos;
      }
      var d := if turn == 0 then Draw(1, pos) else Decide(area, threshold, State(), strategyName, draws, pos);
      change := d.value;
      if a < 2 && change < 0 {
        change := change + 1;
      }
      if a > area.alts - 2 && change > 0 {
        change := change - 1;
      }
      a := a + change;
      var wind := area.winds[a][r][c];
      r := r + wind.dr;
      c := c + wind.dc;
      c := c % area.cols;
      next := d.pos;
    }

    method Alive(area: Area) returns (alive: bool)
      modifies this`dead
      ensures State() == Survey(area, old(State())) && alive == !dead
    {
      dead := dead || r < 0 || r >= area.rows;
      alive := !dead;
    }

    /** clone: a new ball with the same fields. */
    method Clone() returns (b: Ball)
      ensures fresh(b) && b.State() == State() && b.strategyName == strategyName
    {
      b := new Ball(r, c);
      b.a, b.dead, b.strategyName := a, dead, strategyName;
    }
  }
}
