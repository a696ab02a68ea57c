# League standings of SiteFutebol, verified in Dafny

A Dafny model of the standings engine of `script.js`, the single script of a
football-league website with two divisions ("ouro" and "prata"). The model
covers these parts:

- **Division data.** Read from `times.json` (rosters) and `rodadas.json`
  (rounds of matches).
- **League table.** `DataProcessor.calculateTable` builds it. It copies the
  roster into a map of team records (`createTeamMap`) and zeroes them
  (`resetTeamStats`). It then adds every counted match to its two records
  (`processGame`) and fills in the goal differences.
- **Ranking.** `DataProcessor.sortTeams` orders the table by points, wins,
  goal difference, then a disciplinary score. That score is 15 per red card
  and 5 per yellow card.
- **Round on display.** The last completed round
  (`AppState.getLastCompletedRodada`) picks it, and the division buttons
  (`changeSerie`) and the previous/next buttons update it.
- **Date helpers.** `Utils.parseDateBR` and `Utils.formatDate` read the
  `DD/MM/YYYY` round dates.
- **Knockout winner.** The rule the bracket view uses to pick the winner of
  a tie, penalty shootouts included.

The modules:

- `JsValues`: a JSON field as absent (`undefined`), `null` or an integer. It
  models the JavaScript operators the code applies to fields: `>`, `!= null`
  and `|| 0`.
- `Dates`: `split('/')`, `padStart`, and day numbers as ECMAScript's MakeDay
  computes them.
  - `parseDateBR` returns a day number, an Invalid Date, or a thrown
    TypeError.
  - `formatDate` shows "A DEFINIR" ("to be decided") for year 2099.
- `League`: the roster, round and match records.
- `Rounds`: the completed rounds and `getLastCompletedRodada`.
  - The `AppState` class holds the division and round on display and the
    dataset.
  - Its methods model `changeSerie`, the two navigation buttons and the
    initial round chosen after loading.
- `Standings`: the table.
  - The `Team` class holds one team record. `ProcessGame` updates two such
    records in place.
  - `CalculateTable` builds the table imperatively, over a map of `Team`
    objects.
  - It is proved to return exactly `Table`, the functional definition of
    the table.
- `TableProperties`: what the table promises.
  - One row per team.
  - Points are 3 per win plus 1 per draw.
  - Across the league, wins equal losses and goals for equal goals against.
  - Only completed rounds count, and a round dated in the future changes
    nothing.
- `Ranking`: the comparator and an in-place stable insertion sort on an
  array of rows.
  - `SortTeams` is proved to compute `Ranked`.
  - `Ranked` is proved to be a permutation, to be ordered by the
    lexicographic key order, and to keep rows with equal keys in input
    order.
- `Knockout`: the winner of a tie.

"Now" is the parameter `today`: the number of the current day counted from
1970-01-01 in UTC. A date-only ISO string is read as midnight UTC. So
`new Date('YYYY-MM-DD') <= new Date()` holds exactly when the date's day
number is at most `today`.

Three behaviours of the code to keep in mind:

- **Malformed dates are not skipped.** A date with no '/' throws a
  TypeError (`month.padStart` is called on `undefined`). Every round's date
  is parsed while computing the last completed round, so building the table
  throws too.
  - Rounds model this as `Result.Thrown`.
  - A date with exactly one '/' makes `parseDateBR` build the string
    "undefined-MM-DD", which is outside the ECMAScript date-time string
    format. The model reads it as an Invalid Date, so its round is never
    completed.
- **Round dates must be `DD/MM/YYYY`.** An ISO date has no '/', so it
  throws.
- **Same team on both sides.** When a match lists one team on both sides,
  `processGame` receives the same record twice and applies both sides to it.
  The model does the same (`ProcessGame`, case `a == b`).

## Model

| member | source | states |
|---|---|---|
| JsValues.Greater | script.js:317-318 | JavaScript `>` on a field: `null` compares as 0, an absent field as NaN, so any comparison with it is false (see GreaterTrichotomy) |
| JsValues.IsPresent | script.js:111 | the loose `!= null` test: true exactly for a recorded number |
| JsValues.OrZero | script.js:81-84 | `x \|\| 0` on a card count: a recorded number is kept and an absent or `null` count becomes 0 (see OrZeroAgreesWithComparison for how it relates to the number `>` reads) |
| JsValues.OrZeroAgreesWithComparison | script.js:81-84 | `x \|\| 0` gives a recorded field the number `>` compares it by and an absent field 0; it is 0 exactly for absent, `null` and 0; `!= null` holds exactly for fields neither absent nor `null` |
| JsValues.GreaterTrichotomy | script.js:317-318 | `a > b` and `b > a` never both hold; on two numbers exactly one of `>`, `<`, `===` holds |
| Dates.Split | script.js:16 | `split('/')` gives at least one piece and no piece contains '/' |
| Dates.JoinSplit | script.js:16 | joining the pieces of `split('/')` with '/' gives back the string |
| Dates.SplitJoin | script.js:16 | splitting pieces free of '/' after joining them gives back the pieces |
| Dates.PadStart | script.js:17 | `padStart(w, '0')` has length `max(len, w)`, leaves strings of length at least `w` alone, and otherwise puts exactly `w - len` zeros before the string |
| Dates.PadStartDigits | script.js:17 | padding a digit string with zeros keeps it a digit string with the same value |
| Dates.Decimal | script.js:17 | a number written with leading zeros to a width has that many digits and reads back as the number |
| Dates.DecimalValueInjective | script.js:17 | two digit strings of one length with the same value are equal |
| Dates.ReadIso | script.js:17 | a `YYYY-MM-DD` string is a day or an Invalid Date, never a throw |
| Dates.DayNumberFollowsCalendar | script.js:47-49 | on real calendar dates, one date is before another exactly when its day number is smaller, so `<=` on the parsed dates is calendar order |
| Dates.ParseFormatBR | script.js:15-18 | parsing a date written `DD/MM/YYYY` gives the day number of that date |
| Dates.ParseUnpadded | script.js:15-18 | one-digit day and month (`5/3/2024`) are padded and parse like `05/03/2024` |
| Dates.SplitPieces | script.js:16 | `split('/')` yields at least two pieces exactly when the string contains '/' |
| Dates.ParseDateBR | script.js:15-18 | `parseDateBR` throws a TypeError exactly when the string has no '/' (the month is then `undefined`); otherwise a day number or an Invalid Date |
| Dates.ParseErrors | script.js:15-18 | a string without '/' throws a TypeError and a string with one never throws; one with exactly one '/' the model reads as an Invalid Date |
| Dates.FormatDate | script.js:19-22 | `formatDate` shows either the date string unchanged or "A DEFINIR" (see FormatDateOfFormatBR for which) |
| Dates.FormatDateOfFormatBR | script.js:19-22 | for a date written `DD/MM/YYYY`, `formatDate` gives "A DEFINIR" exactly when the year is 2099 and the date itself otherwise |
| Rounds.Completed | script.js:46-50 | the filtered rounds are exactly the rounds dated on or before today |
| Rounds.MaxNumber | script.js:52 | `Math.max` over round numbers: one of the numbers, and no number exceeds it |
| Rounds.IsCompleted | script.js:47-49 | a round is completed when its parsed date is a day on or before today; an Invalid Date never is |
| Dates.OnOrBefore | script.js:49 | `rodadaDate <= currentDate` on a parsed date: true for a day number not after today, false for an Invalid Date (see DayNumberFollowsCalendar for why day-number order is calendar order; the same test is at script.js:107) |
| Rounds.LastCompletedRound | script.js:43-53 | throws exactly when some round's date has no '/'; otherwise 1 when no round is completed, else a completed round's number that no completed round exceeds |
| Rounds.MaxRound | script.js:499-500 | the largest round number present, or 1 when there are no rounds |
| Rounds.LastCompletedWithinNavigation | script.js:43-53 | with round numbers at least 1, the last completed round lies in `[1, max round]` |
| Rounds.FutureRoundKeepsLastCompleted | script.js:46-50 | adding a round dated after today at any position changes neither the throw nor the result |
| Rounds.CompletedAppend | script.js:46-50 | the filter distributes over concatenation: the completed rounds of two lists are those of each, in order |
| Rounds.InsertedRoundThrows | script.js:46-48 | adding a round whose date does not throw leaves the throw as it was |
| Rounds.FirstOfTwoCompleted | script.js:43-53 | of two well-formed rounds, the first completed and the second not, the last completed round is the first |
| Rounds.PlaceholderRoundNotCompleted | script.js:43-53 | rounds dated 01/01/2024 and 01/01/2099, today between them: the last completed round is the 2024 one |
| Rounds.AppState.constructor | script.js:40-42 | the state starts on division "ouro", round 9, with no data |
| Rounds.AppState.LastCompleted | script.js:43-53 | `getLastCompletedRodada`: 1 while there is no data or no such division, otherwise the last completed round of the division (see LastCompletedRound) |
| Rounds.AppState.NavigationRounds | script.js:499 | the rounds the navigation and the initial round look at: the current division's rounds, or none when the division is missing (the same expression is at script.js:560; see AppState.Load and AppState.NextRound) |
| Rounds.AppState.Load | script.js:559-562 | after loading, the page shows the largest round number of the current division (1 without rounds), a round in bounds whenever that is positive |
| Rounds.AppState.ChangeSerie | script.js:54-57 | the division becomes the new one and the round its last completed round; on a throw the division has changed and the round has not; without a throw the round is in bounds whenever data is loaded and every round number is positive, a missing division included (round 1 of at most 1) |
| Rounds.AppState.PreviousRound | script.js:491-496 | the round decreases by one only when above 1, and a round in `[1, max]` stays there |
| Rounds.AppState.NextRound | script.js:497-505 | throws while there is no data; otherwise the round increases by one only when below the largest round number, and a round in `[1, max]` stays there |
| Standings.ApplyMatch | script.js:76-99 | a match on a name-keyed table changes no set of teams |
| Standings.MatchOutcome | script.js:76-98 | for two different teams (the same-team case is ProcessGame's and MatchBalanced's): goals and cards go to each side as scored; each team gets exactly one of win, draw and loss; 3 points for a win and 1 for a draw, 3 or 2 points per match; no other team changes |
| Standings.Side | script.js:76-98 | one team's side of a match: goals scored and conceded, cards, and a win with 3 points, a draw with 1 or a loss (see MatchOutcome) |
| Standings.MatchSymmetric | script.js:76-98 | swapping the two teams with their scores and cards gives the same table, also when both sides are one team |
| Standings.Team.constructor | script.js:65 | a copy of a roster record with its name and image |
| Standings.Team.ResetStats | script.js:69-75 | every statistic becomes 0; name and image unchanged |
| Standings.ProcessGame | script.js:76-99 | each record receives its own side of the match; a record passed as both teams receives both sides in turn; names and images unchanged |
| Standings.Names | script.js:62-67 | the team-map keys: every roster name exactly once |
| Standings.NameSetMembers | script.js:62-67 | a name is in the roster's name set exactly when some roster entry carries it |
| Standings.Images | script.js:62-67 | the image map has exactly the roster's names as keys |
| Standings.ImageOfLastEntry | script.js:64-66 | a later entry with the same name overwrites the earlier one: the last entry's image wins |
| Standings.CreateTeamMap | script.js:62-68 | fresh records, one per roster name, each named after its key (so no two keys share a record) and carrying the image of its name's last roster entry; keys in first-insertion order |
| Standings.AddCopy | script.js:64-66 | copying one roster record adds a fresh record under its name, replaces an earlier one with that name, keeps the other records and appends the name to the keys only when it is new |
| Standings.RosterStep | script.js:64-66 | one more roster entry adds its name to the name set, to the key order when it is new, and sets its image |
| Standings.ResetAll | script.js:102 | every record zeroed, names and images kept |
| Standings.Counted | script.js:111-114 | a match counts when both scores are recorded numbers and both team names are keys of the team map |
| Standings.CardsOf | script.js:115-120 | the `cardsData` of a match: each card count, or 0 when it is absent or `null` |
| Standings.ApplyGame | script.js:111-124 | a match keeps the set of teams |
| Standings.ApplyGames | script.js:110-124 | the matches of a round keep the set of teams |
| Standings.ApplyRounds | script.js:109-125 | the selected rounds keep the set of teams |
| Standings.Selected | script.js:107 | a round is counted when its number is at most the last completed round and its date is on or before today (see SelectedRounds) |
| Standings.SelectedRounds | script.js:105-108 | the rounds the table counts are exactly those numbered at most the last completed round and dated on or before today |
| Standings.WithDifference | script.js:127 | a record with its goal difference set to goals for minus goals against and every other statistic kept (see Team.FillGoalDifference, ConsistentRows) |
| Standings.TableRows | script.js:126-129 | one row per key |
| Standings.Table | script.js:100-130 | `calculateTable` throws exactly when some round's date has no '/', and otherwise gives one row per distinct roster name |
| Standings.ApplyGameToTeams | script.js:111-124 | the records change as the match changes the functional table |
| Standings.ApplyGamesToTeams | script.js:110-124 | the records change as the round's matches change the functional table |
| Standings.ApplyRoundsToTeams | script.js:109-125 | the records change as the selected rounds change the functional table |
| Standings.Team.FillGoalDifference | script.js:127 | the record's goal difference becomes goals for minus goals against; every other field is unchanged |
| Standings.FillGoalDifferences | script.js:126-128 | every record's goal difference becomes goals for minus goals against, nothing else changes |
| Standings.CollectRows | script.js:129 | the records' values in key order |
| Standings.CalculateTable | script.js:100-130 | the imperative computation returns exactly the functional table `Table`, or the TypeError it throws |
| TableProperties.RowNames | script.js:126-129 | the rows are named after the team-map keys, in key order, so no name appears twice |
| TableProperties.RowsCoverRoster | script.js:126-129 | every roster entry's name has a row |
| TableProperties.RowsFromRoster | script.js:126-129 | every row is named after some roster entry |
| TableProperties.RowImages | script.js:64-66 | a row carries the image of the last roster entry with its name |
| TableProperties.RosterRowsArePerTeam | script.js:62-67 | rows built from the team map have one row per distinct roster name, in first-occurrence order, no name twice, each row carrying the last roster entry's image (`OneRowPerTeam`) |
| TableProperties.TableHasOneRowPerTeam | script.js:100-130 | the table returned has one row per distinct roster name, in first-occurrence order, no name twice, each row carrying the image of the last roster entry with its name (`OneRowPerTeam`) |
| TableProperties.GamesKeepPoints | script.js:85-98 | matches keep points equal to 3 per win plus 1 per draw |
| TableProperties.RoundsKeepPoints | script.js:109-125 | rounds keep points equal to 3 per win plus 1 per draw |
| TableProperties.ConsistentRows | script.js:126-129 | rows built from records whose points are 3 per win plus 1 per draw keep that, and carry goal difference = goals for minus goals against |
| TableProperties.TableRowsAreConsistent | script.js:100-130 | in every row points are 3 per win plus 1 per draw and goal difference is goals for minus goals against |
| TableProperties.MatchBalanced | script.js:76-98 | a match keeps league-wide wins equal to losses and goals for equal to goals against, also when both sides are one team |
| TableProperties.GamesBalanced | script.js:110-124 | the matches of a round keep the league balanced |
| TableProperties.RoundsBalanced | script.js:109-125 | the selected rounds keep the league balanced |
| TableProperties.TableBalanced | script.js:100-130 | over the table, wins sum to losses, goals for to goals against, and goal differences to 0 |
| TableProperties.SelectedAreCompleted | script.js:105-108 | when no completed round is numbered above the threshold, the round-number test removes nothing |
| TableProperties.TableCountsCompletedRounds | script.js:103-108 | the table counts exactly the rounds dated on or before today |
| TableProperties.NoCompletedRoundNoStats | script.js:100-130 | before any round is completed every row has all statistics 0 |
| TableProperties.NoneSelected | script.js:105-108 | with no round dated on or before today the filter keeps no round |
| TableProperties.InitialRowsAreZero | script.js:101-102 | the rows of the freshly reset team map carry all statistics 0 |
| TableProperties.ZeroRows | script.js:126-129 | rows built from records that are all zero carry all statistics 0, goal difference included |
| TableProperties.FutureRoundIgnored | script.js:105-108 | adding a round dated after today at any position leaves the table unchanged |
| TableProperties.SelectedAppend | script.js:105-108 | the round filter distributes over concatenation |
| TableProperties.UncountedGamesIgnored | script.js:111-114 | matches without both scores or with an unknown team change nothing: the table is that of the counted matches alone |
| Ranking.DisciplinaryScore | script.js:136-139 | the fourth ranking key: 15 per red card plus 5 per yellow card, fewer ranking first (see CompareIsLexicographic, CardsBreakTie) |
| Ranking.Compare | script.js:132-141 | the comparator of `sortTeams`; its meaning is stated by CompareIsLexicographic |
| Ranking.Insert | script.js:131-142 | one insertion step: the row goes after every row it does not rank strictly ahead of (see InsertPermutes, InsertOrdered, InsertStable) |
| Ranking.Ranked | script.js:131-142 | the sorted table as rows inserted one at a time (see RankedPermutes, RankedOrdered, RankedStable) |
| Ranking.CompareIsLexicographic | script.js:132-141 | the comparator's sign is the lexicographic key order (points, wins, goal difference descending, disciplinary score ascending); it is antisymmetric and 0 exactly on equal keys |
| Ranking.NotBehindTransitive | script.js:132-141 | "not ranked behind" is transitive |
| Ranking.InsertPermutes | script.js:131-142 | inserting a row adds exactly that row |
| Ranking.RankedPermutes | script.js:131-142 | the sorted table is a permutation of the input |
| Ranking.InsertOrdered | script.js:131-142 | inserting into an ordered table keeps it ordered |
| Ranking.RankedOrdered | script.js:131-142 | no row of the sorted table ranks strictly ahead of a row before it |
| Ranking.InsertStable | script.js:131-142 | inserting a row puts it after the rows with its keys |
| Ranking.InsertPastLast | script.js:131-142 | a row that moves ahead of the last row never passes a row with the same keys |
| Ranking.RankedStable | script.js:131-142 | rows with equal keys keep their input order |
| Ranking.GoalDifferenceBreaksTie | script.js:133-135 | level on points and wins, the better goal difference ranks first in either input order |
| Ranking.CardsBreakTie | script.js:136-140 | level on points, wins and goal difference, a team with one red card fewer ranks first even with up to two more yellow cards, in either input order |
| Ranking.InsertAt | script.js:131-142 | moving one row back into the sorted prefix gives the insertion of that row, the rest untouched |
| Ranking.SortTeams | script.js:131-142 | the array, sorted in place, holds the ranked table of its old contents |
| Knockout.KnockoutWinner | script.js:316-325 | the winner shown for a tie: by goals with `>`, overridden by the shootout when the scores are strictly equal and both penalty scores are given (see WinnerOfPlayedTie, IncompleteTies) |
| Knockout.ShootoutApplies | script.js:321 | the shootout decides when the two scores are strictly equal (`===`) and neither penalty score is absent; a `null` penalty score counts as recorded (see WinnerOfPlayedTie) |
| Knockout.WinnerOfPlayedTie | script.js:316-325 | both scores given: a side wins exactly when it scored more, or when the scores are level, both shootout scores are recorded and it converted more; otherwise nobody wins |
| Knockout.WinnerSymmetric | script.js:316-325 | swapping the sides swaps the winner |
| Knockout.GoalsDecideFirst | script.js:316-325 | the shootout never overturns a win on goals |
| Knockout.IncompleteTies | script.js:316-325 | one score absent gives no winner; both absent leaves the decision to the shootout; a `null` score counts as 0 with `>` but is not equal to 0 |

## Left out

- Rendering: the DOM, `renderTable` zone colours, bracket and game cards,
  `UI.*`, banners, `loadCSS`, injected styles and the winner highlight of
  the "ouro" division. All of this is presentation.
- Fetching and the URL fallback chain. These are network I/O and
  asynchronous joins.
- `initialize`'s merge of the four documents into the dataset. `Load`
  receives the merged dataset.
- `debounce` and the resize listeners. These are timers.
- Scorer and goalkeeper rankings. They rely on floating point and
  `localeCompare`.
- The knockout-round test on the round name (a case-insensitive regular
  expression).
- The clock. The two `new Date()` calls in `calculateTable` and
  `getLastCompletedRodada` are modelled as one day number `today`: the model
  assumes both calls fall on the same day.
- Date parsing outside the four-digit-year date-only form. Implementations
  may fall back to their own parsers for strings like `2024-1-5`,
  "undefined-03-05" or years that are not four digits. The ECMAScript format
  also admits expanded years with a sign and six digits (`+002024`). The
  model reads all of these as Invalid Date.
- Day-of-month checking: the ECMAScript date-only format accepts 01-31 in
  every month and rolls over, as the standard's MakeDay does. The model
  follows the standard; some browsers reject such dates.
- Number values: scores, cards and round numbers are integers. Fractions,
  strings coerced by `+=` and `>`, and precision beyond 2^53 are not
  modelled.
- Key order of the team map: `Object.values` lists integer-like keys (a team
  named "10") first in numeric order. The model lists every name in
  insertion order.
- Inherited property names (`constructor`, `toString`) used as team names.
  A match with such a name would find an inherited value in the team map;
  the model treats every such name as absent.
- Rounds without a `data` field or with a non-string one: the source throws
  a TypeError at `rodada.data.split`. The model's round date is always a
  string. Likewise a counted round without a `jogos` array makes
  `rodada.jogos.forEach` (script.js:110) throw; the model's round always
  holds a sequence of matches.
- `Standings.CalculateTable` takes the division itself. For a division
  missing from the data the source throws while copying the roster; the
  rendering code checks for that case before calling it.
- `Ranking.SortTeams` is an insertion sort, and the engine's
  `Array.prototype.sort` algorithm is not modelled. The standard requires a
  stable sort, so any stable sort under this comparator gives the same
  order. The comparator is consistent (`CompareIsLexicographic`).
