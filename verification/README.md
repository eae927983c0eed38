# Head-to-head screen of the football app, in Dafny

This project models the logic of the head-to-head screen `my-app/components/matches.jsx`.
The screen lists the fixtures between two clubs. Its header shows a summary seen from the
reference team, Manchester United (team id 33): matches played, won, drawn and lost, and
goals for and against. Each fixture card shows the venue line and the full-time score. The
winner's score is coloured green and the loser's red.

The model has four modules:

- `Wrappers` (`wrappers.dfy`): the `Option` type. It stands for JavaScript's `null` and
  `undefined`.
- `MatchSummary` (`summary.dfy`): `computeSummary`. The fixture record keeps only the
  fields the summary reads. `ComputeSummary` is a loop with six counters, as in the source.
  `Tally` is an independent reference definition: each counter is the sum of per-fixture
  weights. The method is proved equal to `Tally`, and the properties are lemmas about `Tally`.
- `VenueName` (`venue.dfy`): `normalizeVenueName` and the venue line.
  - The three `replace` calls are modelled with JavaScript's regular-expression semantics.
    Without the `g` flag, only the leftmost match is replaced.
  - `\s` and `trim()` use the same whitespace set.
  - The venue line is the normalized name and the city, with empty parts dropped and the
    rest joined with `", "`.
- `ScoreColour` (`colours.dfy`): the colour rule for the two full-time scores, and how it
  relates to the summary's win count.

Two properties of the code that a reader of `normalizeVenueName` might not expect:

- The comment on line 9 says the helper removes suffixes. The comment on line 12 says that
  line drops trailing markers like `$(...)`. The pattern on line 12, `\s*\$$.*\$$$`, needs a
  `$` character after the end-of-input anchor, so it matches no string, and nothing is
  removed. A trailing annotation such as `(Newcastle)` therefore stays in the name.
  `MarkerNeverMatches` proves this. `NormalizeSaintJames` shows the consequence:
  `St. James' Park (Newcastle)` becomes `St James’ Park (Newcastle)`, with the annotation
  kept.
- `normalizeVenueName` is not idempotent, because only the first `St.` is rewritten.
  `NormalizeNotIdempotent` gives the input `St. St. X`. `NormalizeStable` states when a second
  application changes nothing: when the result contains no `St.`.

## Model

| member | source | states |
|---|---|---|
| MatchSummary.ComputeSummary | my-app/components/matches.jsx:30-49 | the six counters after the pass equal the reference tally of the fixtures; an absent list gives all zeros; played is wins plus draws plus losses |
| MatchSummary.TallyEmpty | my-app/components/matches.jsx:31-32 | an empty fixture list gives six zero counters |
| MatchSummary.SingleFixture | my-app/components/matches.jsx:34-46 | a finished fixture is played once and lands in exactly one of win, draw and loss; a fixture missing either score adds nothing to any counter |
| MatchSummary.DrawExactly | my-app/components/matches.jsx:43-44 | a finished fixture is a draw if and only if both winner flags are absent and the scores are equal; equal scores with a flag present count as a win or a loss |
| MatchSummary.WinExactly | my-app/components/matches.jsx:36-46 | a finished fixture is a win if and only if it is not a draw and the reference team's own side has the winner flag exactly true; a loss if and only if it is neither |
| MatchSummary.UnfinishedIgnored | my-app/components/matches.jsx:34 | inserting a fixture without both scores anywhere in the list leaves the summary unchanged |
| MatchSummary.PlayedCountsFinished | my-app/components/matches.jsx:34-35 | played equals the number of fixtures with both scores present |
| MatchSummary.TallyConsistent | my-app/components/matches.jsx:43-46 | played is always wins plus draws plus losses |
| MatchSummary.GoalsBalance | my-app/components/matches.jsx:36-40 | goals for plus goals against is the total of both scores over the finished fixtures, whichever side the reference team is on |
| MatchSummary.CountPermutation | my-app/components/matches.jsx:32-47 | each counter is the same for any reordering of the fixture list |
| MatchSummary.TallyPermutation | my-app/components/matches.jsx:32-47 | the whole summary does not depend on the order of the fixtures |
| MatchSummary.Examples | my-app/components/matches.jsx:30-49 | a 2-1 home win gives played 1, won 1, goals 2-1; a 1-1 draw without flags gives played 1, drawn 1, goals 1-1 |
| VenueName.MarkerNeverMatches | my-app/components/matches.jsx:12 | the trailing-marker pattern matches no string, so this replacement never changes the name |
| VenueName.ReplaceSaint | my-app/components/matches.jsx:13 | the result differs from the input if and only if the input contains `St.` |
| VenueName.ReplaceSaintFirst | my-app/components/matches.jsx:13 | the leftmost `St.` and the whole whitespace run after it become `St `; the text before and after is kept |
| VenueName.ReplaceJames | my-app/components/matches.jsx:14 | the length is kept; without a `James` followed by an apostrophe the input is returned; otherwise only the apostrophe of the leftmost match becomes the curly one |
| VenueName.ReplaceJamesFixed | my-app/components/matches.jsx:14 | the rewrite leaves a string unchanged if and only if its leftmost match already has the curly apostrophe |
| VenueName.ReplaceJamesIdempotent | my-app/components/matches.jsx:14 | applying the apostrophe rewrite twice is the same as once |
| VenueName.Trim | my-app/components/matches.jsx:15 | the result has no whitespace at either end; it is empty exactly when the input is all whitespace; an input without outer whitespace is returned as is |
| VenueName.TrimSlice | my-app/components/matches.jsx:15 | the trimmed string is a slice of the input, and only whitespace lies outside that slice |
| VenueName.NormalizeVenueName | my-app/components/matches.jsx:10-16 | an absent or empty name gives the empty string; the result never starts or ends with whitespace |
| VenueName.NormalizeSaintJames | my-app/components/matches.jsx:10-16 | a name `St. James'` followed by any text that does not end in whitespace becomes `St James’` followed by the same text; a trailing annotation such as ` Park (Newcastle)` is kept |
| VenueName.RewriteSaintJames | my-app/components/matches.jsx:13-14 | on a name starting with `St. James'`, the two rewrites drop the dot and make the apostrophe curly, and keep the rest |
| VenueName.SaintPrefix | my-app/components/matches.jsx:13 | `St.`, one space, then a non-blank character: only the dot is dropped |
| VenueName.JamesPrefix | my-app/components/matches.jsx:14 | in a name starting with `St James'`, only that apostrophe becomes curly |
| VenueName.NormalizeNotIdempotent | my-app/components/matches.jsx:13 | `St. St. X` normalizes to `St St. X`, and that normalizes to `St St X` |
| VenueName.NormalizeFirstStStX | my-app/components/matches.jsx:10-16 | `St. St. X` normalizes to `St St. X` |
| VenueName.NormalizeSecondStStX | my-app/components/matches.jsx:10-16 | `St St. X` normalizes to `St St X` |
| VenueName.NormalizedJamesFixed | my-app/components/matches.jsx:14-15 | the apostrophe rewrite leaves every normalized name unchanged |
| VenueName.NormalizeStable | my-app/components/matches.jsx:10-16 | normalizing again changes nothing when the normalized name contains no `St.` |
| VenueName.VenueLine | my-app/components/matches.jsx:78 | the venue line is empty if and only if both the normalized name and the city are empty; with both present it is name, comma-space, city; otherwise it is the one present |
| VenueName.JoinTwo | my-app/components/matches.jsx:78 | dropping empty strings from a two-element list and joining the rest gives one part, both parts with the separator, or the empty string |
| ScoreColour.Hex | my-app/components/matches.jsx:85-86 | each colour is written as `#` followed by three hexadecimal digits |
| ScoreColour.HexInjective | my-app/components/matches.jsx:85-86 | the three colours have distinct hex strings |
| ScoreColour.ScoreColours | my-app/components/matches.jsx:83-86 | a score is green if and only if its own side's winner flag is exactly true; red if and only if its own flag is not true and the opponent's is; grey if and only if neither flag is true |
| ScoreColour.ScoreColoursSymmetric | my-app/components/matches.jsx:83-86 | swapping the two flags swaps the two colours |
| ScoreColour.ScoreColourCases | my-app/components/matches.jsx:83-86 | no true flag gives grey and grey; one true flag gives green and red; two true flags give green and green |
| ScoreColour.OwnColourMatchesWin | my-app/components/matches.jsx:41-46 | for every finished fixture, the reference team's score is green if and only if the summary counts the fixture as a win |
| ScoreColour.LossShownNeutral | my-app/components/matches.jsx:43-46 | every finished fixture with unequal scores and no winner flags is counted as a loss, whichever side the reference team is on, yet both scores are grey |
| ScoreColour.AwayGoalsWinCountedLoss | my-app/components/matches.jsx:36-46 | a 3-0 away win on goals without winner flags is counted as a loss with three goals for, and the reference team's score is grey |

## Left out

- `formatDate` (lines 19-27): it depends on JavaScript's `Date` and the locale formatting of `toLocaleString`. Neither is modelled.
- The `Matches` component beyond the venue line and the score colours: the header text, the list rendering, the key extractor (it uses `Math.random`), images and styles. These are presentation code.
- The loading of the sample data and the other screens and files of the repository are not part of this model.
- MatchSummary.ComputeSummary: the `|| 0` coercion on lines 39-40 is not modelled. Goals are natural numbers whenever present, so the coercion changes nothing for them. Non-numeric JavaScript values in the score fields are not modelled.
- MatchSummary.ComputeSummary: a `null` entry in the fixture array is treated as a fixture whose goals are absent. This is what the source's `item || {}` gives, so such an entry is skipped.
- Input types: strings are sequences of Unicode characters, so lone UTF-16 surrogates cannot be written. Names and cities that are not strings are not modelled.
- ScoreColour.Hex: the contract states the shape of each style string, not which string each colour gets. The mapping to `#0a7`, `#c33` and `#222` is given only by the table in its body.
