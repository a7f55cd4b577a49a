/**
 * A journey flies one balloon for a number of turns and records, turn by turn, the change
 * of altitude it chose (`hist`) and the score it collected while alive (`score`). `delay`
 * postpones a recorded journey by prepending turns without a change.
 */
module LoonJourney {
  import opened LoonArea
  import opened LoonBall

  /** What generate adds for a live ball: the score of its cell, halved (rounding down) when
      the ball is more than `radius` rows away from the latitude. */
  function Gain(area: Area, s: BallState, latitude: int): int
    requires area.Valid() && 0 <= s.r < area.rows && 0 <= s.c < area.cols
  {
    var v := area.scores[s.r][s.c];
    if Abs(latitude - s.r) > area.radius then v / 2 else v
  }

  /** The record of turns i..turns-1 of generate: the changes, the score collected, the
      ball at the end, and the next unused draw. */
  datatype Trip = Trip(hist: seq<int>, score: int, last: BallState, pos: nat)

  /** Turns i..turns-1 of generate from ball `s`: change altitude, record the change, and
      collect the gain if alive? still holds. */
  function Run(area: Area, threshold: int, s: BallState, strategy: Strategy, i: nat, turns: nat, latitude: int,
               draws: Draws, pos: nat): (t: Trip)
    requires area.Valid() && InFlight(area, s) && i <= turns
    ensures |t.hist| == turns - i && InFlight(area, t.last)
    decreases turns - i
  {
    if i == turns then Trip([], 0, s, pos)
    else
      var m := Step(area, threshold, s, strategy, i, draws, pos);
      var s' := Survey(area, m.next);
      var gain := if s'.dead then 0 else Gain(area, s', latitude);
      var rest := Run(area, threshold, s', strategy, i + 1, turns, latitude, draws, m.pos);
      Trip([m.change] + rest.hist, gain + rest.score, rest.last, rest.pos)
  }

  function Zeros(k: nat): (z: seq<int>)
    ensures |z| == k && forall t :: 0 <= t < k ==> z[t] == 0
  {
    seq(k, _ => 0)
  }

  /** Every recorded change is -1, 0 or 1; a ball that is dead stays dead; and with non-negative scores the journey's score is non-negative. */
  lemma {:induction false} RunFacts(area: Area, threshold: int, s: BallState, strategy: Strategy, i: nat, turns: nat,
                                    latitude: int, draws: Draws, pos: nat)
    requires area.Valid() && InFlight(area, s) && i <= turns
    ensures var t := Run(area, threshold, s, strategy, i, turns, latitude, draws, pos);
      && (forall k :: 0 <= k < |t.hist| ==> -1 <= t.hist[k] <= 1)
      && (s.dead ==> t.last.dead)
      && ((forall x, y :: 0 <= x < area.rows && 0 <= y < area.cols ==> area.scores[x][y] >= 0) ==> t.score >= 0)
    decreases turns - i
  {
    if i < turns {
      var m := Step(area, threshold, s, strategy, i, draws, pos);
      StepFacts(area, threshold, s, strategy, i, draws, pos);
      var s' := Survey(area, m.next);
      RunFacts(area, threshold, s', strategy, i + 1, turns, latitude, draws, m.pos);
    }
  }

  /** A dead ball records no change, collects nothing, does not move and draws nothing. */
  lemma {:induction false} RunDead(area: Area, threshold: int, s: BallState, strategy: Strategy, i: nat, turns: nat,
                                   latitude: int, draws: Draws, pos: nat)
    requires area.Valid() && InFlight(area, s) && i <= turns && s.dead
    ensures Run(area, threshold, s, strategy, i, turns, latitude, draws, pos) == Trip(Zeros(turns - i), 0, s, pos)
    decreases turns - i
  {
    if i < turns {
      RunDead(area, threshold, s, strategy, i + 1, turns, latitude, draws, pos);
      assert [0] + Zeros(turns - (i + 1)) == Zeros(turns - i);
    }
  }

  /** Once the ball has died by turn m, every later entry of the history is 0. */
  lemma {:induction false} AfterDeathNoChange(area: Area, threshold: int, s: BallState, strategy: Strategy, i: nat, m: nat,
                                              turns: nat, latitude: int, draws: Draws, pos: nat)
    requires area.Valid() && InFlight(area, s) && i <= m <= turns
    requires Run(area, threshold, s, strategy, i, m, latitude, draws, pos).last.dead
    ensures forall k :: m - i <= k < turns - i ==> Run(area, threshold, s, strategy, i, turns, latitude, draws, pos).hist[k] == 0
    decreases m - i
  {
    if i == m {
      RunDead(area, threshold, s, strategy, i, turns, latitude, draws, pos);
    } else {
      var st := Step(area, threshold, s, strategy, i, draws, pos);
      RunUnfold(area, threshold, s, strategy, i, m, latitude, draws, pos);
      RunUnfold(area, threshold, s, strategy, i, turns, latitude, draws, pos);
      AfterDeathNoChange(area, threshold, Survey(area, st.next), strategy, i + 1, m, turns, latitude, draws, st.pos);
    }
  }

  /** The first recorded change of a live ball is the forced climb, capped at the top. */
  lemma FirstTurnClimbs(area: Area, threshold: int, s: BallState, strategy: Strategy, turns: nat,
                        latitude: int, draws: Draws, pos: nat)
    requires area.Valid() && InFlight(area, s) && !s.dead && turns >= 1
    ensures Run(area, threshold, s, strategy, 0, turns, latitude, draws, pos).hist[0]
            == (if s.a > area.alts - 2 then 0 else 1)
  {
    StepFacts(area, threshold, s, strategy, 0, draws, pos);
  }

  /** Turn i of a run, unfolded. */
  lemma RunUnfold(area: Area, threshold: int, s: BallState, strategy: Strategy, i: nat, turns: nat, latitude: int,
                  draws: Draws, pos: nat)
    requires area.Valid() && InFlight(area, s) && i < turns
    ensures var m := Step(area, threshold, s, strategy, i, draws, pos);
      var s' := Survey(area, m.next);
      var rest := Run(area, threshold, s', strategy, i + 1, turns, latitude, draws, m.pos);
      Run(area, threshold, s, strategy, i, turns, latitude, draws, pos)
        == Trip([m.change] + rest.hist, (if s'.dead then 0 else Gain(area, s', latitude)) + rest.score,
                rest.last, rest.pos)
  {
  }

  /** Delaying by a and then by b delays by a + b. */
  lemma DelayTwice(h: seq<int>, a: nat, b: nat)
    ensures Zeros(b) + (Zeros(a) + h) == Zeros(a + b) + h
  {
    assert Zeros(b) + Zeros(a) == Zeros(a + b);
  }

  /** After turn i-1 of generate, with the ball at `s` and `hist` and `score` recorded so
      far: those, followed by what the remaining turns record, make up the whole journey. */
  ghost predicate Progress(area: Area, threshold: int, strategy: Strategy, latitude: int, draws: Draws, turns: nat,
                           all: Trip, i: nat, s: BallState, hist: seq<int>, score: int, pos: nat)
    requires area.Valid()
  {
    && i <= turns && InFlight(area, s)
    && var rest := Run(area, threshold, s, strategy, i, turns, latitude, draws, pos);
      hist + rest.hist == all.hist && score + rest.score == all.score
      && rest.last == all.last && rest.pos == all.pos
  }

  /** One more turn keeps the progress: record the change and add the gain of a live ball. */
  lemma ProgressStep(area: Area, threshold: int, strategy: Strategy, latitude: int, draws: Draws, turns: nat,
                     all: Trip, i: nat, s: BallState, hist: seq<int>, score: int, pos: nat)
    requires area.Valid() && i < turns
    requires Progress(area, threshold, strategy, latitude, draws, turns, all, i, s, hist, score, pos)
    ensures var m := Step(area, threshold, s, strategy, i, draws, pos);
      var s' := Survey(area, m.next);
      Progress(area, threshold, strategy, latitude, draws, turns, all, i + 1, s', hist + [m.change],
               score + (if s'.dead then 0 else Gain(area, s', latitude)), m.pos)
  {
    RunUnfold(area, threshold, s, strategy, i, turns, latitude, draws, pos);
    var m := Step(area, threshold, s, strategy, i, draws, pos);
    var rest := Run(area, threshold, Survey(area, m.next), strategy, i + 1, turns, latitude, draws, m.pos);
    assert hist + ([m.change] + rest.hist) == (hist + [m.change]) + rest.hist;
  }

  class Journey {
    var ball: Ball
    var score: int
    var hist: seq<int>

    /** Journey.new(ball): score and history are set by generate. */
    constructor (ball: Ball)
      ensures this.ball == ball && score == 0 && hist == []
    {
      this.ball := ball;
      score := 0;
      hist := [];
    }

    /** generate(turns, latitude) */
    method Generate(area: Area, turns: nat, latitude: int, draws: Draws, pos: nat) returns (next: nat)
      requires area.Valid() && InFlight(area, ball.State())
      modifies this`score, this`hist, ball`r, ball`c, ball`a, ball`dead
      ensures var t := Run(area, Threshold(area), old(ball.State()), ball.strategyName, 0, turns, latitude, draws, pos);
        hist == t.hist && score == t.score && ball.State() == t.last && next == t.pos
    {
      var threshold := Threshold(area);
      ghost var all := Run(area, threshold, ball.State(), ball.strategyName, 0, turns, latitude, draws, pos);
      score := 0;
      hist := [];
      next := pos;
      var i := 0;
      while i < turns
        invariant Progress(area, threshold, ball.strategyName, latitude, draws, turns, all, i, ball.State(), hist, score, next)
      {
        next := GenerateTurn(area, threshold, i, turns, latitude, draws, next, all);
        i := i + 1;
      }
    }

    /** Turn i of generate: record the change; `next unless ball.alive?`; add the gain. */
    method GenerateTurn(area: Area, threshold: int, i: nat, turns: nat, latitude: int, draws: Draws, pos: nat, ghost all: Trip)
      returns (next: nat)
      requires area.Valid() && i < turns
      requires Progress(area, threshold, ball.strategyName, latitude, draws, turns, all, i, ball.State(), hist, score, pos)
      modifies this`score, this`hist, ball`r, ball`c, ball`a, ball`dead
      ensures Progress(area, threshold, ball.strategyName, latitude, draws, turns, all, i + 1, ball.State(), hist, score, next)
    {
      ProgressStep(area, threshold, ball.strategyName, latitude, draws, turns, all, i, ball.State(), hist, score, pos);
      var change;
      change, next := ball.ChangeAltitude(area, threshold, i, draws, pos);
      hist := hist + [change];
      var alive := ball.Alive(area);
      if alive {
        var s := area.scores[ball.r][ball.c];
        if Abs(latitude - ball.r) > area.radius {
          s := s / 2;
        }
        score := score + s;
      }
    }

    /** delay(turns): prepend `k` turns without a change. */
    method Delay(k: nat)
      modifies this`hist
      ensures |hist| == k + |old(hist)|
      ensures forall t :: 0 <= t < k ==> hist[t] == 0
      ensures hist[k..] == old(hist)
    {
      hist := Zeros(k) + hist;
    }

    /** clone: a new journey sharing the ball, with the same score and history. */
    method Clone() returns (j: Journey)
      ensures fresh(j) && j.ball == ball && j.score == score && j.hist == hist
    {
      j := new Journey(ball);
      j.score, j.hist := score, hist;
    }
  }
}
