/** The colour of the two full-time scores on a fixture card of `my-app/components/matches.jsx`:
    green for a side flagged as winner, red for a side whose opponent is flagged as winner,
    dark grey otherwise. Only a flag that is exactly `true` counts. */
module ScoreColour {
  import opened Wrappers
  import MatchSummary

  /** The three colours a score can take. */
  datatype Colour = WinColour | LossColour | Neutral

  /** A hexadecimal digit, as CSS colour notation uses them. */
  predicate IsHexDigit(ch: char) {
    '0' <= ch <= '9' || 'a' <= ch <= 'f' || 'A' <= ch <= 'F'
  }

  /** The colour as the style string of lines 85-86: CSS short hex notation, `#` and three
      hexadecimal digits. */
  function Hex(c: Colour): (r: string)
    ensures |r| == 4 && r[0] == '#'
    ensures forall i | 1 <= i < 4 :: IsHexDigit(r[i])
  {
    match c
    case WinColour => "#0a7"
    case LossColour => "#c33"
    case Neutral => "#222"
  }

  /** Different colours are written differently. */
  lemma HexInjective(c: Colour, d: Colour)
    ensures Hex(c) == Hex(d) <==> c == d
  {
    if c != d {
      assert Hex(c)[1..] != Hex(d)[1..];
    }
  }

  /** A winner flag counts only when it is strictly `true`; `false`, `null` and a missing
      flag are all the same here. */
  predicate Flagged(winner: Option<bool>) {
    winner == Some(true)
  }

  /** The colours of the home and the away score. A side's own flag takes precedence over its
      opponent's, so two `true` flags colour both scores green. */
  function ScoreColours(homeWinner: Option<bool>, awayWinner: Option<bool>): (r: (Colour, Colour))
    ensures r.0 == WinColour <==> Flagged(homeWinner)
    ensures r.1 == WinColour <==> Flagged(awayWinner)
    ensures r.0 == LossColour <==> !Flagged(homeWinner) && Flagged(awayWinner)
    ensures r.1 == LossColour <==> !Flagged(awayWinner) && Flagged(homeWinner)
    ensures r.0 == Neutral <==> !Flagged(homeWinner) && !Flagged(awayWinner)
    ensures r.1 == Neutral <==> !Flagged(homeWinner) && !Flagged(awayWinner)
  {
    var winnerHome := Flagged(homeWinner);
    var winnerAway := Flagged(awayWinner);
    var colourHome := if winnerHome then WinColour else if winnerAway then LossColour else Neutral;
    var colourAway := if winnerAway then WinColour else if winnerHome then LossColour else Neutral;
    (colourHome, colourAway)
  }

  /** The rule treats the two sides alike: swapping the flags swaps the colours. */
  lemma ScoreColoursSymmetric(homeWinner: Option<bool>, awayWinner: Option<bool>)
    ensures ScoreColours(awayWinner, homeWinner)
      == (ScoreColours(homeWinner, awayWinner).1, ScoreColours(homeWinner, awayWinner).0)
  {
  }

  /** The four combinations of flags: no `true` flag leaves both scores grey, one `true` flag
      gives green and red, and two give green twice. */
  lemma ScoreColourCases(homeWinner: Option<bool>, awayWinner: Option<bool>)
    ensures !Flagged(homeWinner) && !Flagged(awayWinner) ==>
      ScoreColours(homeWinner, awayWinner) == (Neutral, Neutral)
    ensures Flagged(homeWinner) && !Flagged(awayWinner) ==>
      ScoreColours(homeWinner, awayWinner) == (WinColour, LossColour)
    ensures !Flagged(homeWinner) && Flagged(awayWinner) ==>
      ScoreColours(homeWinner, awayWinner) == (LossColour, WinColour)
    ensures Flagged(homeWinner) && Flagged(awayWinner) ==>
      ScoreColours(homeWinner, awayWinner) == (WinColour, WinColour)
  {
  }

  /** The colour of the reference team's own score on the card of fixture `f`. */
  function OwnColour(team: int, f: MatchSummary.Fixture): Colour {
    var (home, away) := ScoreColours(f.homeWinner, f.awayWinner);
    if MatchSummary.IsHome(team, f) then home else away
  }

  /** The card and the summary agree on wins: for every finished fixture, the reference
      team's score is green exactly when the fixture is counted as a win. */
  lemma OwnColourMatchesWin(team: int, f: MatchSummary.Fixture)
    requires MatchSummary.Finished(f)
    ensures OwnColour(team, f) == WinColour <==> MatchSummary.Tally(team, [f]).wins == 1
  {
    MatchSummary.TallySingle(team, f);
    MatchSummary.DrawExactly(team, f);
    MatchSummary.WinExactly(team, f);
  }

  /** The card and the summary can disagree on losses: every finished fixture with unequal
      scores and no winner flags is counted as a loss, whichever side the reference team is on
      and whichever side scored more, yet both scores stay grey. */
  lemma LossShownNeutral(team: int, f: MatchSummary.Fixture)
    requires MatchSummary.Finished(f)
    requires f.homeWinner.None? && f.awayWinner.None?
    requires f.homeGoals != f.awayGoals
    ensures MatchSummary.Tally(team, [f]).losses == 1
    ensures ScoreColours(f.homeWinner, f.awayWinner) == (Neutral, Neutral)
  {
    MatchSummary.TallySingle(team, f);
  }

  /** The sharpest case of the disagreement: the reference team wins 3-0 away, but with no
      winner flags the summary counts a loss with three goals for. */
  lemma AwayGoalsWinCountedLoss(f: MatchSummary.Fixture)
    requires f == MatchSummary.Fixture(Some(10), None, None, Some(0), Some(3))
    ensures MatchSummary.Tally(MatchSummary.TeamId, [f]).losses == 1
    ensures MatchSummary.Tally(MatchSummary.TeamId, [f]).gf == 3
    ensures OwnColour(MatchSummary.TeamId, f) == Neutral
  {
    MatchSummary.TallySingle(MatchSummary.TeamId, f);
  }
}
