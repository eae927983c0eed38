/** The head-to-head summary of `my-app/components/matches.jsx`: a fold over fixtures that
    counts played/won/drawn/lost matches and goals for and against, from the point of view of
    one reference team. */
module MatchSummary {
  import opened Wrappers

  /** The reference team of the screen (Manchester United in the source's data). */
  const TeamId: int := 33

  /** The part of a fixture record the summary reads. A missing `teams` object, or a missing
      `teams.home`, gives `homeId == None` and absent winner flags; a missing `goals` object (and
      a `null` entry of the fixture array, which the source replaces by `{}`) gives absent goals. */
  datatype Fixture = Fixture(
    homeId: Option<int>,
    homeWinner: Option<bool>,
    awayWinner: Option<bool>,
    homeGoals: Option<nat>,
    awayGoals: Option<nat>)

  /** The six counters the screen shows in its header. */
  datatype Summary = Summary(played: nat, wins: nat, draws: nat, losses: nat, gf: nat, ga: nat)

  /** Names for the six counters, so that one definition serves all of them. */
  datatype Counter = Played | Wins | Draws | Losses | GoalsFor | GoalsAgainst

  /** How one fixture counts for the reference team. */
  datatype Outcome = Unfinished | Win | Draw | Loss

  /** Both scores are known: only such fixtures are counted. */
  predicate Finished(f: Fixture) {
    f.homeGoals.Some? && f.awayGoals.Some?
  }

  /** The reference team plays at home exactly when the home id is strictly equal to it. */
  predicate IsHome(team: int, f: Fixture) {
    f.homeId == Some(team)
  }

  /** A draw needs both winner flags absent and equal scores; a present flag, even `false`,
      rules a draw out. */
  predicate IsDraw(f: Fixture)
    requires Finished(f)
  {
    f.homeWinner.None? && f.awayWinner.None? && f.homeGoals.value == f.awayGoals.value
  }

  /** The reference team's own side carries the winner flag `true`. */
  predicate OwnSideWon(team: int, f: Fixture) {
    if IsHome(team, f) then f.homeWinner == Some(true) else f.awayWinner == Some(true)
  }

  /** Draw first, then win, and every other finished fixture is a loss. */
  function Classify(team: int, f: Fixture): Outcome {
    if !Finished(f) then Unfinished
    else if IsDraw(f) then Draw
    else if OwnSideWon(team, f) then Win
    else Loss
  }

  /** What the single fixture `f` adds to counter `c`. */
  function Weight(team: int, f: Fixture, c: Counter): nat {
    if !Finished(f) then 0
    else
      var o := Classify(team, f);
      match c
      case Played => 1
      case Wins => if o == Win then 1 else 0
      case Draws => if o == Draw then 1 else 0
      case Losses => if o == Loss then 1 else 0
      case GoalsFor => if IsHome(team, f) then f.homeGoals.value else f.awayGoals.value
      case GoalsAgainst => if IsHome(team, f) then f.awayGoals.value else f.homeGoals.value
  }

  /** Counter `c` summed over the fixtures. */
  function Count(team: int, fs: seq<Fixture>, c: Counter): nat {
    if |fs| == 0 then 0 else Weight(team, fs[0], c) + Count(team, fs[1..], c)
  }

  /** Reference definition of the summary: each counter is the sum of the fixtures'
      weights for it. */
  function Tally(team: int, fs: seq<Fixture>): Summary {
    Summary(Count(team, fs, Played), Count(team, fs, Wins), Count(team, fs, Draws),
            Count(team, fs, Losses), Count(team, fs, GoalsFor), Count(team, fs, GoalsAgainst))
  }

  /** The goals the fixture contributes to `gf + ga`, whoever is the reference team. */
  function GoalsOf(f: Fixture): nat {
    if Finished(f) then f.homeGoals.value + f.awayGoals.value else 0
  }

  /** The sum of all goals of the finished fixtures of `fs`. */
  function TotalGoals(fs: seq<Fixture>): nat {
    if |fs| == 0 then 0 else GoalsOf(fs[0]) + TotalGoals(fs[1..])
  }

  /** The finished fixtures of `fs`, in order. */
  function FinishedOnly(fs: seq<Fixture>): seq<Fixture> {
    if |fs| == 0 then []
    else if Finished(fs[0]) then [fs[0]] + FinishedOnly(fs[1..])
    else FinishedOnly(fs[1..])
  }

  /** `computeSummary`: one pass over the fixtures (the `forEach`), updating six counters in
      place. An absent list (`fixtures?.forEach` on `null` or `undefined`) leaves them at zero. */
  method ComputeSummary(fixtures: Option<seq<Fixture>>) returns (r: Summary)
    ensures r == Tally(TeamId, fixtures.GetOr([]))
    ensures fixtures.None? ==> r == Summary(0, 0, 0, 0, 0, 0)
    ensures r.played == r.wins + r.draws + r.losses
  {
    var fs := fixtures.GetOr([]);
    var played, wins, draws, losses, gf, ga := 0, 0, 0, 0, 0, 0;
    var i := 0;
    while i < |fs|
      invariant 0 <= i <= |fs|
      invariant Summary(played, wins, draws, losses, gf, ga) == Tally(TeamId, fs[..i])
    {
      var f := fs[i];
      assert fs[..i + 1] == fs[..i] + [f];
      CountSnocAll(TeamId, fs[..i], f);
      if f.homeGoals.Some? && f.awayGoals.Some? {
        var home, away := f.homeGoals.value, f.awayGoals.value;
        played := played + 1;
        var isHome := f.homeId == Some(TeamId);
        var forGoals := if isHome then home else away;
        var againstGoals := if isHome then away else home;
        gf := gf + forGoals;
        ga := ga + againstGoals;
        var homeWin := f.homeWinner == Some(true);
        var awayWin := f.awayWinner == Some(true);
        var isDraw := f.homeWinner.None? && f.awayWinner.None? && home == away;
        if isDraw {
          draws := draws + 1;
        } else if (isHome && homeWin) || (!isHome && awayWin) {
          wins := wins + 1;
        } else {
          losses := losses + 1;
        }
      }
      i := i + 1;
    }
    assert fs[..i] == fs;
    TallyConsistent(TeamId, fs);
    r := Summary(played, wins, draws, losses, gf, ga);
  }

  /** A counter over a concatenation is the sum of the counters over the parts. */
  lemma {:induction false} CountConcat(team: int, a: seq<Fixture>, b: seq<Fixture>, c: Counter)
    ensures Count(team, a + b, c) == Count(team, a, c) + Count(team, b, c)
  {
    if |a| == 0 {
      assert a + b == b;
    } else {
      assert (a + b)[1..] == a[1..] + b;
      CountConcat(team, a[1..], b, c);
    }
  }

  lemma CountSingle(team: int, f: Fixture, c: Counter)
    ensures Count(team, [f], c) == Weight(team, f, c)
  {
    assert [f][1..] == [];
  }

  /** The summary of a one-fixture list holds that fixture's weights. */
  lemma TallySingle(team: int, f: Fixture)
    ensures Tally(team, [f]) == Summary(Weight(team, f, Played), Weight(team, f, Wins),
      Weight(team, f, Draws), Weight(team, f, Losses), Weight(team, f, GoalsFor),
      Weight(team, f, GoalsAgainst))
  {
    CountSingle(team, f, Played);
    CountSingle(team, f, Wins);
    CountSingle(team, f, Draws);
    CountSingle(team, f, Losses);
    CountSingle(team, f, GoalsFor);
    CountSingle(team, f, GoalsAgainst);
  }

  /** Appending one fixture adds its weight to every counter. */
  lemma CountSnocAll(team: int, fs: seq<Fixture>, f: Fixture)
    ensures forall c :: Count(team, fs + [f], c) == Count(team, fs, c) + Weight(team, f, c)
  {
    forall c
      ensures Count(team, fs + [f], c) == Count(team, fs, c) + Weight(team, f, c)
    {
      CountConcat(team, fs, [f], c);
      CountSingle(team, f, c);
    }
  }

  /** In two lists with the same elements, the head of the first occurs somewhere in the
      second, and the rests after removing it still have the same elements. */
  lemma MatchHead(a: seq<Fixture>, b: seq<Fixture>) returns (i: nat)
    requires |a| > 0 && multiset(a) == multiset(b)
    ensures i < |b| && b[i] == a[0]
    ensures multiset(a[1..]) == multiset(b[..i] + b[i + 1..])
  {
    assert a[0] in multiset(b);
    i :| 0 <= i < |b| && b[i] == a[0];
    assert b == b[..i] + [b[i]] + b[i + 1..];
    assert multiset(b) == multiset(b[..i]) + multiset{b[i]} + multiset(b[i + 1..]);
    assert a == [a[0]] + a[1..];
    assert multiset(a) == multiset{a[0]} + multiset(a[1..]);
    assert multiset(b[..i] + b[i + 1..]) == multiset(b[..i]) + multiset(b[i + 1..]);
    assert multiset(a[1..]) == multiset(a) - multiset{a[0]};
  }

  /** Taking the fixture at `i` out of the list takes its weight out of every counter. */
  lemma CountRemove(team: int, b: seq<Fixture>, i: nat, c: Counter)
    requires i < |b|
    ensures Count(team, b, c) == Weight(team, b[i], c) + Count(team, b[..i] + b[i + 1..], c)
  {
    assert b == b[..i] + [b[i]] + b[i + 1..];
    CountConcat(team, b[..i] + [b[i]], b[i + 1..], c);
    CountConcat(team, b[..i], [b[i]], c);
    CountConcat(team, b[..i], b[i + 1..], c);
    CountSingle(team, b[i], c);
  }

  /** A counter does not depend on the order of the fixtures. */
  lemma {:induction false} CountPermutation(team: int, a: seq<Fixture>, b: seq<Fixture>, c: Counter)
    requires multiset(a) == multiset(b)
    ensures Count(team, a, c) == Count(team, b, c)
  {
    if |a| == 0 {
      assert |b| == |multiset(b)| == 0;
    } else {
      var i := MatchHead(a, b);
      CountPermutation(team, a[1..], b[..i] + b[i + 1..], c);
      CountRemove(team, b, i, c);
    }
  }

  /** Every summary counts each played fixture as exactly one of win, draw and loss. */
  lemma {:induction false} TallyConsistent(team: int, fs: seq<Fixture>)
    ensures Tally(team, fs).played == Tally(team, fs).wins + Tally(team, fs).draws + Tally(team, fs).losses
  {
    if |fs| > 0 {
      TallyConsistent(team, fs[1..]);
    }
  }

  /** An empty fixture list gives six zero counters. */
  lemma TallyEmpty(team: int)
    ensures Tally(team, []) == Summary(0, 0, 0, 0, 0, 0)
  {
  }

  /** The summary of one fixture: a finished fixture is played once and lands in exactly one
      of draw, win and loss; an unfinished one adds nothing to any counter, goals included. */
  lemma SingleFixture(team: int, f: Fixture)
    ensures Finished(f) ==> Tally(team, [f]).played == 1
    ensures Finished(f) ==>
      var s := Tally(team, [f]);
      (s.wins == 1 && s.draws == 0 && s.losses == 0) ||
      (s.wins == 0 && s.draws == 1 && s.losses == 0) ||
      (s.wins == 0 && s.draws == 0 && s.losses == 1)
    ensures !Finished(f) ==> Tally(team, [f]) == Summary(0, 0, 0, 0, 0, 0)
  {
    TallySingle(team, f);
  }

  /** A finished fixture counts as a draw exactly when neither winner flag is present and the
      scores are equal; equal scores with any flag present are not a draw. */
  lemma DrawExactly(team: int, f: Fixture)
    requires Finished(f)
    ensures Tally(team, [f]).draws == 1 <==>
      f.homeWinner.None? && f.awayWinner.None? && f.homeGoals == f.awayGoals
    ensures f.homeGoals == f.awayGoals && (f.homeWinner.Some? || f.awayWinner.Some?) ==>
      Tally(team, [f]).wins + Tally(team, [f]).losses == 1
  {
    TallySingle(team, f);
  }

  /** A finished fixture counts as a win exactly when it is not a draw and the reference team's
      own side (home when the home id matches) has the winner flag `true`; every other finished
      fixture is a loss. */
  lemma WinExactly(team: int, f: Fixture)
    requires Finished(f)
    ensures Tally(team, [f]).wins == 1 <==>
      Tally(team, [f]).draws == 0 &&
      (if f.homeId == Some(team) then f.homeWinner == Some(true) else f.awayWinner == Some(true))
    ensures Tally(team, [f]).losses == 1 <==>
      Tally(team, [f]).draws == 0 && Tally(team, [f]).wins == 0
  {
    TallySingle(team, f);
  }

  /** Inserting an unfinished fixture anywhere changes nothing. */
  lemma UnfinishedIgnored(team: int, a: seq<Fixture>, f: Fixture, b: seq<Fixture>)
    requires !Finished(f)
    ensures Tally(team, a + [f] + b) == Tally(team, a + b)
  {
    forall c
      ensures Count(team, a + [f] + b, c) == Count(team, a + b, c)
    {
      CountConcat(team, a + [f], b, c);
      CountConcat(team, a, [f], c);
      CountConcat(team, a, b, c);
      CountSingle(team, f, c);
    }
  }

  /** `played` counts exactly the finished fixtures. */
  lemma {:induction false} PlayedCountsFinished(team: int, fs: seq<Fixture>)
    ensures Tally(team, fs).played == |FinishedOnly(fs)|
  {
    if |fs| > 0 {
      PlayedCountsFinished(team, fs[1..]);
    }
  }

  /** Goals for plus goals against is the total of both scores over the finished fixtures,
      whichever side the reference team is on; in particular it does not depend on the team. */
  lemma {:induction false} GoalsBalance(team: int, fs: seq<Fixture>)
    ensures Tally(team, fs).gf + Tally(team, fs).ga == TotalGoals(fs)
  {
    if |fs| > 0 {
      GoalsBalance(team, fs[1..]);
    }
  }

  /** The summary does not depend on the order of the fixtures. */
  lemma TallyPermutation(team: int, a: seq<Fixture>, b: seq<Fixture>)
    requires multiset(a) == multiset(b)
    ensures Tally(team, a) == Tally(team, b)
  {
    forall c
      ensures Count(team, a, c) == Count(team, b, c)
    {
      CountPermutation(team, a, b, c);
    }
  }

  /** Two worked examples: a home win 2-1, and a 1-1 draw with no winner flags seen from
      either side. */
  lemma Examples()
    ensures Tally(TeamId, [Fixture(Some(33), Some(true), Some(false), Some(2), Some(1))])
      == Summary(1, 1, 0, 0, 2, 1)
    ensures Tally(TeamId, [Fixture(Some(33), None, None, Some(1), Some(1))])
      == Summary(1, 0, 1, 0, 1, 1)
    ensures Tally(TeamId, [Fixture(Some(10), None, None, Some(1), Some(1))])
      == Summary(1, 0, 1, 0, 1, 1)
  {
    SingleFixture(TeamId, Fixture(Some(33), Some(true), Some(false), Some(2), Some(1)));
    SingleFixture(TeamId, Fixture(Some(33), None, None, Some(1), Some(1)));
    SingleFixture(TeamId, Fixture(Some(10), None, None, Some(1), Some(1)));
  }
}
