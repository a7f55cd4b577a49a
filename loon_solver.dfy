/**
 * The solver: for each of three latitudes it flies 201 probes of the launch balloon, one
 * strategy after the other, and keeps the probe with the best score; balloon j then follows
 * the best journey of latitude j % 3, held on the ground for its first j + j % 2 turns. The
 * answer is a `turns` x `nbBalls` matrix of altitude changes.
 */
module LoonSolver {
  import opened LoonArea
  import opened LoonBall
  import opened LoonJourney

  const NbJourneys: nat := 200
  const NbBest: nat := 3
  const TurnsLag: nat := 3

  /** The latitude of round i: `Ball.radius * 2 * (i + 1)`. */
  function Latitude(area: Area, i: nat): int {
    area.radius * 2 * (i + 1)
  }

  /** The next unused draw once the trips `ps`, started at `pos`, are flown. */
  function After(ps: seq<Trip>, pos: nat): nat {
    if |ps| == 0 then pos else ps[|ps| - 1].pos
  }

  /** Probes 0..n-1 of one round: probe p flies a copy of the launch ball `start` with
      strategy `StrategyFor(p)`, drawing from where probe p-1 stopped. */
  function Probes(area: Area, start: BallState, turns: nat, latitude: int, draws: Draws, pos: nat,
                  n: nat): (ps: seq<Trip>)
    requires area.Valid() && InFlight(area, start)
    ensures |ps| == n && forall k :: 0 <= k < n ==> |ps[k].hist| == turns
  {
    if n == 0 then []
    else
      var prev := Probes(area, start, turns, latitude, draws, pos, n - 1);
      prev + [Run(area, Threshold(area), start, StrategyFor(n - 1), 0, turns, latitude, draws, After(prev, pos))]
  }

  /** Probe p of any longer list of probes is probe p of the shorter list: it flies strategy
      `StrategyFor(p)` from the draw where the first p probes stopped. */
  lemma {:induction false} ProbeIs(area: Area, start: BallState, turns: nat, latitude: int, draws: Draws,
                                   pos: nat, n: nat, p: nat)
    requires area.Valid() && InFlight(area, start) && p < n
    ensures Probes(area, start, turns, latitude, draws, pos, n)[p]
            == Run(area, Threshold(area), start, StrategyFor(p), 0, turns, latitude, draws,
                   After(Probes(area, start, turns, latitude, draws, pos, p), pos))
    decreases n
  {
    if p < n - 1 {
      ProbeIs(area, start, turns, latitude, draws, pos, n - 1, p);
    }
  }

  /** Every change a probe records is -1, 0 or 1. */
  lemma {:induction false} ProbesChanges(area: Area, start: BallState, turns: nat, latitude: int, draws: Draws,
                                         pos: nat, n: nat)
    requires area.Valid() && InFlight(area, start)
    ensures forall k, t :: 0 <= k < n && 0 <= t < turns ==>
      -1 <= Probes(area, start, turns, latitude, draws, pos, n)[k].hist[t] <= 1
  {
    if n > 0 {
      var prev := Probes(area, start, turns, latitude, draws, pos, n - 1);
      var last := Run(area, Threshold(area), start, StrategyFor(n - 1), 0, turns, latitude, draws, After(prev, pos));
      var ps := Probes(area, start, turns, latitude, draws, pos, n);
      assert ps == prev + [last];
      ProbesChanges(area, start, turns, latitude, draws, pos, n - 1);
      RunFacts(area, Threshold(area), start, StrategyFor(n - 1), 0, turns, latitude, draws, After(prev, pos));
      forall k, t | 0 <= k < n && 0 <= t < turns
        ensures -1 <= ps[k].hist[t] <= 1
      {
        if k < n - 1 {
          assert ps[k] == prev[k];
          assert -1 <= prev[k].hist[t] <= 1;
        } else {
          assert ps[k] == last;
          assert t < |last.hist|;
          assert -1 <= last.hist[t] <= 1;
        }
      }
    }
  }

  /** max_by(&:score) over the first n trips: the position of the trip with the largest
      score, the earliest one on a tie. */
  function FirstMax(ps: seq<Trip>, n: nat): (k: nat)
    requires 0 < n <= |ps|
    ensures k < n
  {
    if n == 1 then 0
    else
      var k := FirstMax(ps, n - 1);
      if ps[n - 1].score > ps[k].score then n - 1 else k
  }

  /** FirstMax picks a trip no other trip beats, and every trip before it scores less. */
  lemma {:induction false} FirstMaxIsFirstMaximum(ps: seq<Trip>, n: nat)
    requires 0 < n <= |ps|
    ensures var k := FirstMax(ps, n);
      && (forall j :: 0 <= j < n ==> ps[j].score <= ps[k].score)
      && (forall j :: 0 <= j < k ==> ps[j].score < ps[k].score)
  {
    if n > 1 {
      FirstMaxIsFirstMaximum(ps, n - 1);
    }
  }

  /** Trip k scores at least as much as every trip of `ps` and more than every earlier one. */
  predicate FirstMaximum(ps: seq<Trip>, k: nat) {
    && k < |ps|
    && (forall j :: 0 <= j < |ps| ==> ps[j].score <= ps[k].score)
    && (forall j :: 0 <= j < k ==> ps[j].score < ps[k].score)
  }

  /** The trip max_by picks is a first maximum. */
  lemma FirstMaxWitness(ps: seq<Trip>, best: Trip)
    requires |ps| > 0 && best == ps[FirstMax(ps, |ps|)]
    ensures exists k: nat :: FirstMaximum(ps, k) && best == ps[k]
  {
    FirstMaxIsFirstMaximum(ps, |ps|);
    assert FirstMaximum(ps, FirstMax(ps, |ps|));
  }

  /** Round i of magic: the best of probes 0..200 at latitude i, and the next unused draw. */
  function Round(area: Area, start: BallState, turns: nat, draws: Draws, pos: nat, i: nat): (Trip, nat)
    requires area.Valid() && InFlight(area, start)
  {
    var ps := RoundProbes(area, start, turns, draws, pos, i);
    (ps[FirstMax(ps, |ps|)], After(ps, pos))
  }

  /** The probes of round i: `(0..NB_JOURNEYS).map` at the round's latitude. */
  function RoundProbes(area: Area, start: BallState, turns: nat, draws: Draws, pos: nat, i: nat): (ps: seq<Trip>)
    requires area.Valid() && InFlight(area, start)
    ensures |ps| == NbJourneys + 1 && forall k :: 0 <= k < |ps| ==> |ps[k].hist| == turns
  {
    Probes(area, start, turns, Latitude(area, i), draws, pos, NbJourneys + 1)
  }

  /** The journey a round keeps is one of its 201 probes, scores at least as much as every
      probe and more than every earlier probe; the next round draws where the last probe
      stopped. */
  lemma RoundBest(area: Area, start: BallState, turns: nat, draws: Draws, pos: nat, i: nat)
    requires area.Valid() && InFlight(area, start)
    ensures exists k: nat :: FirstMaximum(RoundProbes(area, start, turns, draws, pos, i), k)
                          && Round(area, start, turns, draws, pos, i).0 == RoundProbes(area, start, turns, draws, pos, i)[k]
    ensures Round(area, start, turns, draws, pos, i).1 == After(RoundProbes(area, start, turns, draws, pos, i), pos)
  {
    FirstMaxWitness(RoundProbes(area, start, turns, draws, pos, i), Round(area, start, turns, draws, pos, i).0);
  }

  /** The journey a round keeps records a change in {-1, 0, 1} for every turn. */
  lemma RoundChanges(area: Area, start: BallState, turns: nat, draws: Draws, pos: nat, i: nat)
    requires area.Valid() && InFlight(area, start)
    ensures forall t :: 0 <= t < turns ==> -1 <= Round(area, start, turns, draws, pos, i).0.hist[t] <= 1
  {
    var ps := RoundProbes(area, start, turns, draws, pos, i);
    var k := FirstMax(ps, |ps|);
    ProbesChanges(area, start, turns, Latitude(area, i), draws, pos, NbJourneys + 1);
    forall t | 0 <= t < turns
      ensures -1 <= ps[k].hist[t] <= 1
    {
    }
  }

  /** Rounds 0..n-1: the journeys they keep, and the next unused draw. */
  function Bests(area: Area, start: BallState, turns: nat, draws: Draws, pos: nat, n: nat): (b: (seq<Trip>, nat))
    requires area.Valid() && InFlight(area, start)
    ensures |b.0| == n && forall k :: 0 <= k < n ==> |b.0[k].hist| == turns
  {
    if n == 0 then ([], pos)
    else
      var prev := Bests(area, start, turns, draws, pos, n - 1);
      var r := Round(area, start, turns, draws, prev.1, n - 1);
      (prev.0 + [r.0], r.1)
  }

  /** One more round appends its winner and moves the draws on. */
  lemma BestsStep(area: Area, start: BallState, turns: nat, draws: Draws, pos: nat, n: nat)
    requires area.Valid() && InFlight(area, start)
    ensures forall k :: 0 <= k < n ==> Bests(area, start, turns, draws, pos, n + 1).0[k] == Bests(area, start, turns, draws, pos, n).0[k]
    ensures Bests(area, start, turns, draws, pos, n + 1).0[n]
            == Round(area, start, turns, draws, Bests(area, start, turns, draws, pos, n).1, n).0
    ensures Bests(area, start, turns, draws, pos, n + 1).1
            == Round(area, start, turns, draws, Bests(area, start, turns, draws, pos, n).1, n).1
  {
  }

  /** The journey magic keeps for latitude k is the winner of round k, which draws from where
      round k-1 stopped: one of that round's 201 probes, scoring at least as much as every
      probe and more than every earlier one. */
  lemma BestIsRound(area: Area, start: BallState, turns: nat, draws: Draws, pos: nat, k: nat)
    requires area.Valid() && InFlight(area, start) && k < NbBest
    ensures Bests(area, start, turns, draws, pos, NbBest).0[k]
            == Round(area, start, turns, draws, Bests(area, start, turns, draws, pos, k).1, k).0
    ensures exists m: nat :: FirstMaximum(RoundProbes(area, start, turns, draws, Bests(area, start, turns, draws, pos, k).1, k), m)
                          && Bests(area, start, turns, draws, pos, NbBest).0[k]
                             == RoundProbes(area, start, turns, draws, Bests(area, start, turns, draws, pos, k).1, k)[m]
  {
    BestsStep(area, start, turns, draws, pos, 2);
    BestsStep(area, start, turns, draws, pos, 1);
    BestsStep(area, start, turns, draws, pos, 0);
    RoundBest(area, start, turns, draws, Bests(area, start, turns, draws, pos, k).1, k);
  }

  /** Every change a kept journey records is -1, 0 or 1. */
  lemma {:induction false} BestsChanges(area: Area, start: BallState, turns: nat, draws: Draws, pos: nat, n: nat)
    requires area.Valid() && InFlight(area, start)
    ensures forall k, t :: 0 <= k < n && 0 <= t < turns ==>
      -1 <= Bests(area, start, turns, draws, pos, n).0[k].hist[t] <= 1
  {
    if n > 0 {
      var prev := Bests(area, start, turns, draws, pos, n - 1);
      var last := Round(area, start, turns, draws, prev.1, n - 1).0;
      var b := Bests(area, start, turns, draws, pos, n).0;
      assert b == prev.0 + [last];
      BestsChanges(area, start, turns, draws, pos, n - 1);
      RoundChanges(area, start, turns, draws, prev.1, n - 1);
      forall k, t | 0 <= k < n && 0 <= t < turns
        ensures -1 <= b[k].hist[t] <= 1
      {
        if k < n - 1 {
          assert b[k] == prev.0[k];
        }
      }
    }
  }

  /** The change ball j makes at turn t: nothing while it is held on the ground for its
      first j + j % 2 turns, then the kept journey of latitude j % 3 from its beginning. */
  function Entry(bests: seq<Trip>, t: nat, j: nat): int
    requires |bests| == NbBest && t < |bests[j % NbBest].hist|
  {
    var d := j + j % 2;
    if t < d then 0 else bests[j % NbBest].hist[t - d]
  }

  /** The lag of ball j, `TURNS_LAG * j / NB_BEST`, is j turns. */
  lemma LagIsIndex(j: nat)
    ensures TurnsLag * j / NbBest == j
  {
  }

  /** Delaying a journey by j % 2 and then by the lag of ball j holds it on the ground for
      j + j % 2 turns and then replays it. */
  lemma DelayedEntry(h: seq<int>, j: nat, t: nat)
    requires t < |h|
    ensures var d := Zeros(TurnsLag * j / NbBest) + (Zeros(j % 2) + h);
      t < |d| && d[t] == if t < j + j % 2 then 0 else h[t - (j + j % 2)]
  {
    LagIsIndex(j);
    DelayTwice(h, j % 2, j);
    var z := Zeros(j + j % 2);
    assert (z + h)[t] == if t < |z| then z[t] else h[t - |z|];
  }

  /** Every entry of the answer is -1, 0 or 1. */
  lemma EntryIsChange(area: Area, start: BallState, turns: nat, draws: Draws, pos: nat, t: nat, j: nat)
    requires area.Valid() && InFlight(area, start) && t < turns
    ensures -1 <= Entry(Bests(area, start, turns, draws, pos, NbBest).0, t, j) <= 1
  {
    BestsChanges(area, start, turns, draws, pos, NbBest);
  }

  class Solver {
    const area: Area
    const nbBalls: nat
    const turns: nat
    const ball: Ball

    /** What Solver.parse sets up: the area, the number of balls and of turns, and the launch
        ball `Ball.new(r, c, 0)`. */
    constructor (area: Area, nbBalls: nat, turns: nat, r: int, c: int)
      ensures this.area == area && this.nbBalls == nbBalls && this.turns == turns
      ensures fresh(ball) && ball.State() == BallState(r, c, 0, false)
    {
      this.area := area;
      this.nbBalls := nbBalls;
      this.turns := turns;
      ball := new Ball(r, c);
    }

    /** One probe: `sample = ball.clone`, `sample.update_strategy(num)`, then
        `Journey.new(sample).generate(turns, lat)`. */
    method Probe(latitude: int, num: nat, draws: Draws, pos: nat) returns (j: Journey, next: nat)
      requires area.Valid() && InFlight(area, ball.State())
      ensures fresh(j)
      ensures var t := Run(area, Threshold(area), ball.State(), StrategyFor(num), 0, turns, latitude, draws, pos);
        j.hist == t.hist && j.score == t.score && next == t.pos
    {
      var sample := ball.Clone();
      sample.UpdateStrategy(num);
      j := new Journey(sample);
      next := j.Generate(area, turns, latitude, draws, pos);
    }

    /** Round i of magic: `(0..NB_JOURNEYS).map { ... }.max_by(&:score)`. */
    method BestJourney(i: nat, draws: Draws, pos: nat) returns (best: Journey, next: nat)
      requires area.Valid() && InFlight(area, ball.State())
      ensures best.hist == Round(area, ball.State(), turns, draws, pos, i).0.hist
      ensures best.score == Round(area, ball.State(), turns, draws, pos, i).0.score
      ensures next == Round(area, ball.State(), turns, draws, pos, i).1
    {
      var journeys;
      journeys, next := FlyProbes(i, draws, pos);
      best := MaxByScore(journeys, RoundProbes(area, ball.State(), turns, draws, pos, i));
    }

    /** The map of round i: probe `journey_num` for each of 0..NB_JOURNEYS in turn. */
    method FlyProbes(i: nat, draws: Draws, pos: nat) returns (journeys: seq<Journey>, next: nat)
      requires area.Valid() && InFlight(area, ball.State())
      ensures |journeys| == NbJourneys + 1
      ensures forall k :: 0 <= k < NbJourneys + 1 ==>
        && journeys[k].hist == RoundProbes(area, ball.State(), turns, draws, pos, i)[k].hist
        && journeys[k].score == RoundProbes(area, ball.State(), turns, draws, pos, i)[k].score
      ensures next == After(RoundProbes(area, ball.State(), turns, draws, pos, i), pos)
    {
      var latitude := area.radius * 2 * (i + 1);
      journeys := [];
      next := pos;
      var n := 0;
      while n < NbJourneys + 1
        invariant n <= NbJourneys + 1 && |journeys| == n
        invariant forall k :: 0 <= k < n ==>
          && journeys[k].hist == Probes(area, ball.State(), turns, latitude, draws, pos, n)[k].hist
          && journeys[k].score == Probes(area, ball.State(), turns, latitude, draws, pos, n)[k].score
        invariant next == After(Probes(area, ball.State(), turns, latitude, draws, pos, n), pos)
      {
        var j;
        j, next := Probe(latitude, n, draws, next);
        journeys := journeys + [j];
        n := n + 1;
      }
    }

    /** max_by(&:score): the first journey whose score no later one beats strictly. */
    method MaxByScore(journeys: seq<Journey>, ghost ps: seq<Trip>) returns (best: Journey)
      requires 0 < |journeys| == |ps|
      requires forall k :: 0 <= k < |ps| ==> journeys[k].score == ps[k].score
      ensures best == journeys[FirstMax(ps, |ps|)]
    {
      var k := 0;
      var m := 1;
      while m < |journeys|
        invariant 1 <= m <= |journeys| && k == FirstMax(ps, m)
      {
        if journeys[m].score > journeys[k].score {
          k := m;
        }
        m := m + 1;
      }
      best := journeys[k];
    }

    /** One turn of the loop of ChooseBests: round i, drawing from where the previous rounds
        stopped. */
    method NextBest(i: nat, draws: Draws, pos: nat, from: nat) returns (best: Journey, next: nat)
      requires area.Valid() && InFlight(area, ball.State())
      requires from == Bests(area, ball.State(), turns, draws, pos, i).1
      ensures forall k :: 0 <= k < i ==> Bests(area, ball.State(), turns, draws, pos, i + 1).0[k] == Bests(area, ball.State(), turns, draws, pos, i).0[k]
      ensures best.hist == Bests(area, ball.State(), turns, draws, pos, i + 1).0[i].hist
      ensures next == Bests(area, ball.State(), turns, draws, pos, i + 1).1
    {
      BestsStep(area, ball.State(), turns, draws, pos, i);
      best, next := BestJourney(i, draws, from);
    }

    /** The first loop of magic: the kept journey of each of the NB_BEST latitudes. */
    method ChooseBests(draws: Draws, pos: nat) returns (best: seq<Journey>, next: nat)
      requires area.Valid() && InFlight(area, ball.State())
      ensures |best| == NbBest && next == Bests(area, ball.State(), turns, draws, pos, NbBest).1
      ensures forall k :: 0 <= k < NbBest ==> best[k].hist == Bests(area, ball.State(), turns, draws, pos, NbBest).0[k].hist
    {
      ghost var start := ball.State();
      best := [];
      next := pos;
      var i := 0;
      while i < NbBest
        invariant i <= NbBest && |best| == i && ball.State() == start
        invariant next == Bests(area, start, turns, draws, pos, i).1
        invariant forall k :: 0 <= k < i ==> best[k].hist == Bests(area, start, turns, draws, pos, i).0[k].hist
      {
        var j;
        j, next := NextBest(i, draws, pos, next);
        best := best + [j];
        i := i + 1;
      }
    }

    /** The second loop of magic: ball i gets a clone of `best[i % NB_BEST]`, delayed by
        `i % 2` and then by `TURNS_LAG * i / NB_BEST`. */
    method Stagger(best: seq<Journey>) returns (journeys: seq<Journey>)
      requires |best| == NbBest
      ensures |journeys| == nbBalls
      ensures forall k :: 0 <= k < nbBalls ==>
        journeys[k].hist == Zeros(TurnsLag * k / NbBest) + (Zeros(k % 2) + best[k % NbBest].hist)
    {
      journeys := [];
      var i := 0;
      while i < nbBalls
        invariant i <= nbBalls && |journeys| == i
        invariant forall k :: 0 <= k < i ==>
          journeys[k].hist == Zeros(TurnsLag * k / NbBest) + (Zeros(k % 2) + best[k % NbBest].hist)
      {
        var j := best[i % NbBest].Clone();
        j.Delay(i % 2);
        j.Delay(TurnsLag * i / NbBest);
        journeys := journeys + [j];
        i := i + 1;
      }
    }

    /** The third loop of magic: row t of the answer holds turn t of every ball's history. */
    method Matrix(journeys: seq<Journey>) returns (sol: seq<seq<int>>)
      requires forall k :: 0 <= k < |journeys| ==> turns <= |journeys[k].hist|
      ensures |sol| == turns
      ensures forall t :: 0 <= t < turns ==> |sol[t]| == |journeys|
      ensures forall t, j :: 0 <= t < turns && 0 <= j < |journeys| ==> sol[t][j] == journeys[j].hist[t]
    {
      sol := [];
      var t := 0;
      while t < turns
        invariant t <= turns && |sol| == t
        invariant forall u :: 0 <= u < t ==> |sol[u]| == |journeys|
        invariant forall u, j :: 0 <= u < t && 0 <= j < |journeys| ==> sol[u][j] == journeys[j].hist[u]
      {
        var row: seq<int> := [];
        var j := 0;
        while j < |journeys|
          invariant j <= |journeys| && |row| == j
          invariant forall q :: 0 <= q < j ==> row[q] == journeys[q].hist[t]
        {
          row := row + [journeys[j].hist[t]];
          j := j + 1;
        }
        sol := sol + [row];
        t := t + 1;
      }
    }

    /** magic: the answer has `turns` rows of `nbBalls` changes; ball j's change at turn t is
        `Entry` of the journeys kept in rounds 0..2. The launch ball is only cloned: the
        method changes nothing that existed before it was called. */
    method Magic(draws: Draws, pos: nat) returns (sol: seq<seq<int>>, next: nat)
      requires area.Valid() && InFlight(area, ball.State())
      ensures var b := Bests(area, ball.State(), turns, draws, pos, NbBest);
        && |sol| == turns && next == b.1
        && (forall t :: 0 <= t < turns ==> |sol[t]| == nbBalls)
        && (forall t, j :: 0 <= t < turns && 0 <= j < nbBalls ==> sol[t][j] == Entry(b.0, t, j))
    {
      var best;
      best, next := ChooseBests(draws, pos);
      var journeys := Stagger(best);
      ghost var b := Bests(area, ball.State(), turns, draws, pos, NbBest);
      forall k | 0 <= k < |journeys|
        ensures turns <= |journeys[k].hist|
      {
        assert |best[k % NbBest].hist| == turns;
      }
      sol := Matrix(journeys);
      forall t, j | 0 <= t < turns && 0 <= j < nbBalls
        ensures sol[t][j] == Entry(b.0, t, j)
      {
        DelayedEntry(best[j % NbBest].hist, j, t);
      }
    }
  }
}
