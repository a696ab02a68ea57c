/** What the league table promises beyond its definition: a row per team,
    points that follow from the results, a league-wide balance of wins and
    losses and of goals, and which rounds actually count. */
module TableProperties {
  import opened Wrappers
  import opened JsValues
  import opened Dates
  import opened League
  import opened Rounds
  import opened Standings

  // ----- the shape of the table ---------------------------------------------

  /** The rows of a table keyed by the roster's names. */
  function RosterRows(roster: seq<Entry>, tbl: map<string, Stats>): seq<Row>
    requires NameSet(roster) <= tbl.Keys
  {
    TableRows(Names(roster), Images(roster), tbl)
  }

  lemma RowNames(roster: seq<Entry>, tbl: map<string, Stats>)
    requires NameSet(roster) <= tbl.Keys
    ensures var rows := RosterRows(roster, tbl);
      && |rows| == |Names(roster)|
      && (forall i :: 0 <= i < |rows| ==> rows[i].name == Names(roster)[i])
      && (forall i, j :: 0 <= i < j < |rows| ==> rows[i].name != rows[j].name)
  {
  }

  lemma RowsCoverRoster(roster: seq<Entry>, tbl: map<string, Stats>)
    requires NameSet(roster) <= tbl.Keys
    ensures var rows := RosterRows(roster, tbl);
      forall k :: 0 <= k < |roster| ==> exists i :: 0 <= i < |rows| && rows[i].name == roster[k].name
  {
    var rows, names := RosterRows(roster, tbl), Names(roster);
    forall k | 0 <= k < |roster|
      ensures exists i :: 0 <= i < |rows| && rows[i].name == roster[k].name
    {
      NameSetMembers(roster, roster[k].name);
      var i :| 0 <= i < |names| && names[i] == roster[k].name;
      assert rows[i].name == names[i];
    }
  }

  lemma RowsFromRoster(roster: seq<Entry>, tbl: map<string, Stats>)
    requires NameSet(roster) <= tbl.Keys
    ensures var rows := RosterRows(roster, tbl);
      forall i :: 0 <= i < |rows| ==> exists k :: 0 <= k < |roster| && roster[k].name == rows[i].name
  {
    var rows, names := RosterRows(roster, tbl), Names(roster);
    forall i | 0 <= i < |rows|
      ensures exists k :: 0 <= k < |roster| && roster[k].name == rows[i].name
    {
      assert names[i] in names;
      NameSetMembers(roster, names[i]);
    }
  }

  lemma RowImages(roster: seq<Entry>, tbl: map<string, Stats>)
    requires NameSet(roster) <= tbl.Keys
    ensures var rows := RosterRows(roster, tbl);
      forall i, k :: 0 <= i < |rows| && 0 <= k < |roster| && roster[k].name == rows[i].name && LastWithName(roster, k)
                     ==> rows[i].image == roster[k].image
  {
    var rows := RosterRows(roster, tbl);
    forall i, k | 0 <= i < |rows| && 0 <= k < |roster| && roster[k].name == rows[i].name
                  && LastWithName(roster, k)
      ensures rows[i].image == roster[k].image
    {
      ImageOfLastEntry(roster, k);
    }
  }

  /** One row per distinct roster name, in the order the names first occur,
      no name twice, and each row's image that of the last roster entry with
      its name. */
  ghost predicate OneRowPerTeam(roster: seq<Entry>, rows: seq<Row>)
  {
    RowsFollowKeys(Names(roster), rows) && RowsMatchRoster(roster, rows) && RowImagesFromRoster(roster, rows)
  }

  /** The rows are named by `names`, in order. */
  ghost predicate RowsFollowKeys(names: seq<string>, rows: seq<Row>)
  {
    && |rows| == |names|
    && (forall i :: 0 <= i < |rows| ==> rows[i].name == names[i])
    && (forall i, j :: 0 <= i < j < |rows| ==> rows[i].name != rows[j].name)
  }

  /** Every roster name has a row and every row a roster entry. */
  ghost predicate RowsMatchRoster(roster: seq<Entry>, rows: seq<Row>)
  {
    && (forall k :: 0 <= k < |roster| ==> exists i :: 0 <= i < |rows| && rows[i].name == roster[k].name)
    && (forall i :: 0 <= i < |rows| ==> exists k :: 0 <= k < |roster| && roster[k].name == rows[i].name)
  }

  /** Each row carries the image of the last roster entry with its name. */
  ghost predicate RowImagesFromRoster(roster: seq<Entry>, rows: seq<Row>)
  {
    forall i, k :: 0 <= i < |rows| && 0 <= k < |roster| && roster[k].name == rows[i].name && LastWithName(roster, k)
                   ==> rows[i].image == roster[k].image
  }

  lemma RosterRowsArePerTeam(roster: seq<Entry>, tbl: map<string, Stats>)
    requires NameSet(roster) <= tbl.Keys
    ensures OneRowPerTeam(roster, RosterRows(roster, tbl))
  {
    RowNames(roster, tbl);
    RowsCoverRoster(roster, tbl);
    RowsFromRoster(roster, tbl);
    RowImages(roster, tbl);
  }

  /** The table has one row per team of the roster. */
  lemma TableHasOneRowPerTeam(d: Division, today: int)
    requires Table(d, today).Ok?
    ensures OneRowPerTeam(d.roster, Table(d, today).value)
  {
    var last := LastCompletedRound(d.rounds, today).value;
    var tbl := ApplyRounds(InitialTable(d.roster), SelectedRounds(d.rounds, last, today));
    assert Table(d, today).value == RosterRows(d.roster, tbl);
    RosterRowsArePerTeam(d.roster, tbl);
  }

  // ----- points follow from the results ---------------------------------------

  /** Every record's points are 3 per win and 1 per draw. */
  predicate PointsFromResults(tbl: map<string, Stats>)
  {
    forall n :: n in tbl ==> tbl[n].points == 3 * tbl[n].wins + tbl[n].draws
  }

  lemma {:induction false} RoundsKeepPoints(tbl: map<string, Stats>, rounds: seq<Round>)
    requires PointsFromResults(tbl)
    ensures PointsFromResults(ApplyRounds(tbl, rounds))
  {
    if rounds != [] {
      var init := rounds[..|rounds| - 1];
      RoundsKeepPoints(tbl, init);
      GamesKeepPoints(ApplyRounds(tbl, init), rounds[|rounds| - 1].games);
    }
  }

  lemma {:induction false} GamesKeepPoints(tbl: map<string, Stats>, games: seq<Game>)
    requires PointsFromResults(tbl)
    ensures PointsFromResults(ApplyGames(tbl, games))
  {
    if games != [] {
      GamesKeepPoints(tbl, games[..|games| - 1]);
    }
  }

  /** In every row the points are 3 per win and 1 per draw, and the goal
      difference is goals for minus goals against — also when a match lists
      the same team on both sides. */
  lemma TableRowsAreConsistent(d: Division, today: int)
    requires Table(d, today).Ok?
    ensures forall r :: r in Table(d, today).value ==>
      r.stats.points == 3 * r.stats.wins + r.stats.draws
      && r.stats.goalDifference == r.stats.goalsFor - r.stats.goalsAgainst
  {
    var last := LastCompletedRound(d.rounds, today).value;
    var tbl := ApplyRounds(InitialTable(d.roster), SelectedRounds(d.rounds, last, today));
    assert Table(d, today).value == TableRows(Names(d.roster), Images(d.roster), tbl);
    RoundsKeepPoints(InitialTable(d.roster), SelectedRounds(d.rounds, last, today));
    ConsistentRows(Names(d.roster), Images(d.roster), tbl);
  }

  /** Rows built from records whose points follow from their results. */
  lemma ConsistentRows(names: seq<string>, images: map<string, string>, tbl: map<string, Stats>)
    requires forall n :: n in names ==> n in images && n in tbl
    requires PointsFromResults(tbl)
    ensures forall r :: r in TableRows(names, images, tbl) ==>
      r.stats.points == 3 * r.stats.wins + r.stats.draws
      && r.stats.goalDifference == r.stats.goalsFor - r.stats.goalsAgainst
  {
    var rows := TableRows(names, images, tbl);
    forall i | 0 <= i < |rows|
      ensures rows[i].stats.points == 3 * rows[i].stats.wins + rows[i].stats.draws
      ensures rows[i].stats.goalDifference == rows[i].stats.goalsFor - rows[i].stats.goalsAgainst
    {
      assert names[i] in names;
    }
  }

  // ----- the league balances ---------------------------------------------------

  /** A column of the table that is summed. */
  datatype Column = Wins | Losses | GoalsFor | GoalsAgainst | GoalDifference

  function Get(s: Stats, c: Column): int
  {
    match c
    case Wins => s.wins
    case Losses => s.losses
    case GoalsFor => s.goalsFor
    case GoalsAgainst => s.goalsAgainst
    case GoalDifference => s.goalDifference
  }

  /** The sum of a column over the records of the given names. */
  function Total(names: seq<string>, tbl: map<string, Stats>, c: Column): int
    requires forall n :: n in names ==> n in tbl
  {
    if names == [] then 0
    else
      assert names[|names| - 1] in names;
      Total(names[..|names| - 1], tbl, c) + Get(tbl[names[|names| - 1]], c)
  }

  /** The sum of a column over the rows of a table. */
  function RowTotal(rows: seq<Row>, c: Column): int
  {
    if rows == [] then 0 else RowTotal(rows[..|rows| - 1], c) + Get(rows[|rows| - 1].stats, c)
  }

  ghost predicate NoRepeats(names: seq<string>)
  {
    forall i, j :: 0 <= i < j < |names| ==> names[i] != names[j]
  }

  /** Replacing the record of a listed name changes the sum by the
      difference of that record's column. */
  lemma {:induction false} TotalUpdate(names: seq<string>, tbl: map<string, Stats>, a: string, v: Stats, c: Column)
    requires NoRepeats(names) && forall n :: n in names ==> n in tbl
    ensures a in names ==> Total(names, tbl[a := v], c) == Total(names, tbl, c) - Get(tbl[a], c) + Get(v, c)
    ensures a !in names ==> Total(names, tbl[a := v], c) == Total(names, tbl, c)
  {
    if names != [] {
      var init, last := names[..|names| - 1], names[|names| - 1];
      assert names == init + [last];
      assert NoRepeats(init);
      TotalUpdate(init, tbl, a, v, c);
      if a == last {
        assert a !in init;
      }
    }
  }

  /** League-wide, wins equal losses and goals scored equal goals conceded. */
  ghost predicate Balanced(names: seq<string>, tbl: map<string, Stats>)
    requires forall n :: n in names ==> n in tbl
  {
    Total(names, tbl, Wins) == Total(names, tbl, Losses)
    && Total(names, tbl, GoalsFor) == Total(names, tbl, GoalsAgainst)
  }

  /** Replacing one record by one side of a match: how the sums move. */
  lemma SideTotals(names: seq<string>, tbl: map<string, Stats>, a: string, x: int, y: int, yellow: int, red: int)
    requires NoRepeats(names) && a in names && forall n :: n in names ==> n in tbl
    ensures var t := tbl[a := Side(tbl[a], x, y, yellow, red)];
      && Total(names, t, Wins) == Total(names, tbl, Wins) + (if x > y then 1 else 0)
      && Total(names, t, Losses) == Total(names, tbl, Losses) + (if x < y then 1 else 0)
      && Total(names, t, GoalsFor) == Total(names, tbl, GoalsFor) + x
      && Total(names, t, GoalsAgainst) == Total(names, tbl, GoalsAgainst) + y
  {
    var v := Side(tbl[a], x, y, yellow, red);
    TotalUpdate(names, tbl, a, v, Wins);
    TotalUpdate(names, tbl, a, v, Losses);
    TotalUpdate(names, tbl, a, v, GoalsFor);
    TotalUpdate(names, tbl, a, v, GoalsAgainst);
  }

  /** A match keeps the league balanced, whichever its outcome and also when
      both sides are the same team. */
  lemma MatchBalanced(names: seq<string>, tbl: map<string, Stats>, a: string, b: string, x: int, y: int, c: Cards)
    requires NoRepeats(names) && a in names && b in names
    requires forall n :: n in names ==> n in tbl
    requires a in tbl && b in tbl
    requires Balanced(names, tbl)
    ensures Balanced(names, ApplyMatch(tbl, a, b, x, y, c))
  {
    var t := tbl[a := Side(tbl[a], x, y, OrZero(c.yellowA), OrZero(c.redA))];
    SideTotals(names, tbl, a, x, y, OrZero(c.yellowA), OrZero(c.redA));
    SideTotals(names, t, b, y, x, OrZero(c.yellowB), OrZero(c.redB));
  }

  lemma {:induction false} GamesBalanced(names: seq<string>, tbl: map<string, Stats>, games: seq<Game>)
    requires NoRepeats(names) && forall n :: n in tbl <==> n in names
    requires Balanced(names, tbl)
    ensures Balanced(names, ApplyGames(tbl, games))
  {
    if games != [] {
      GamesBalanced(names, tbl, games[..|games| - 1]);
      var t, g := ApplyGames(tbl, games[..|games| - 1]), games[|games| - 1];
      if Counted(t.Keys, g) {
        MatchBalanced(names, t, g.teamA, g.teamB, g.scoreA.n, g.scoreB.n, CardsOf(g));
      }
    }
  }

  lemma {:induction false} RoundsBalanced(names: seq<string>, tbl: map<string, Stats>, rounds: seq<Round>)
    requires NoRepeats(names) && forall n :: n in tbl <==> n in names
    requires Balanced(names, tbl)
    ensures Balanced(names, ApplyRounds(tbl, rounds))
  {
    if rounds != [] {
      var init := rounds[..|rounds| - 1];
      RoundsBalanced(names, tbl, init);
      GamesBalanced(names, ApplyRounds(tbl, init), rounds[|rounds| - 1].games);
    }
  }

  /** Every column of records that are all 0 sums to 0. */
  lemma {:induction false} TotalOfZeros(names: seq<string>, tbl: map<string, Stats>, c: Column)
    requires forall n :: n in names ==> n in tbl && tbl[n] == Zero
    ensures Total(names, tbl, c) == 0
  {
    if names != [] {
      TotalOfZeros(names[..|names| - 1], tbl, c);
    }
  }

  /** The row sums are the record sums, the goal differences summing to goals
      for minus goals against. */
  lemma {:induction false} RowTotals(names: seq<string>, images: map<string, string>, tbl: map<string, Stats>, c: Column)
    requires forall n :: n in names ==> n in images && n in tbl
    ensures c != GoalDifference ==> RowTotal(TableRows(names, images, tbl), c) == Total(names, tbl, c)
    ensures c == GoalDifference ==>
      RowTotal(TableRows(names, images, tbl), c) == Total(names, tbl, GoalsFor) - Total(names, tbl, GoalsAgainst)
  {
    if names != [] {
      var init := names[..|names| - 1];
      var rows := TableRows(names, images, tbl);
      assert rows[..|rows| - 1] == TableRows(init, images, tbl);
      RowTotals(init, images, tbl, c);
      if c == GoalDifference {
        RowTotals(init, images, tbl, GoalsFor);
        RowTotals(init, images, tbl, GoalsAgainst);
      }
    }
  }

  /** Over the whole table, wins equal losses, goals for equal goals against,
      and the goal differences sum to 0. */
  lemma TableBalanced(d: Division, today: int)
    requires Table(d, today).Ok?
    ensures var rows := Table(d, today).value;
      && RowTotal(rows, Wins) == RowTotal(rows, Losses)
      && RowTotal(rows, GoalsFor) == RowTotal(rows, GoalsAgainst)
      && RowTotal(rows, GoalDifference) == 0
  {
    var last := LastCompletedRound(d.rounds, today).value;
    var names, images, init := Names(d.roster), Images(d.roster), InitialTable(d.roster);
    TotalOfZeros(names, init, Wins);
    TotalOfZeros(names, init, Losses);
    TotalOfZeros(names, init, GoalsFor);
    TotalOfZeros(names, init, GoalsAgainst);
    var tbl := ApplyRounds(init, SelectedRounds(d.rounds, last, today));
    RoundsBalanced(names, init, SelectedRounds(d.rounds, last, today));
    RowTotals(names, images, tbl, Wins);
    RowTotals(names, images, tbl, Losses);
    RowTotals(names, images, tbl, GoalsFor);
    RowTotals(names, images, tbl, GoalsAgainst);
    RowTotals(names, images, tbl, GoalDifference);
  }

  // ----- which rounds count ------------------------------------------------------

  /** When no completed round is numbered above `last`, the round-number
      filter takes nothing away: the selected rounds are the completed ones. */
  lemma {:induction false} SelectedAreCompleted(rounds: seq<Round>, last: int, today: int)
    requires forall r :: r in rounds && IsCompleted(r, today) ==> r.number <= last
    ensures SelectedRounds(rounds, last, today) == Completed(rounds, today)
  {
    if rounds != [] {
      var init := rounds[..|rounds| - 1];
      assert forall r :: r in init ==> r in rounds;
      SelectedAreCompleted(init, last, today);
    }
  }

  /** The table counts exactly the rounds dated on or before today: the test
      against the last completed round never removes one. */
  lemma TableCountsCompletedRounds(d: Division, today: int)
    requires LastCompletedRound(d.rounds, today).Ok?
    ensures Table(d, today)
         == Ok(TableRows(Names(d.roster), Images(d.roster),
                         ApplyRounds(InitialTable(d.roster), Completed(d.rounds, today))))
  {
    SelectedAreCompleted(d.rounds, LastCompletedRound(d.rounds, today).value, today);
  }

  /** Before any round is completed every team has all statistics 0. */
  lemma NoCompletedRoundNoStats(d: Division, today: int)
    requires LastCompletedRound(d.rounds, today).Ok?
    requires forall r :: r in d.rounds ==> !IsCompleted(r, today)
    ensures forall r :: r in Table(d, today).value ==> r.stats == Zero
  {
    NoneSelected(d.rounds, LastCompletedRound(d.rounds, today).value, today);
    InitialRowsAreZero(d.roster);
  }

  /** With no round completed the filter selects nothing. */
  lemma {:induction false} NoneSelected(rounds: seq<Round>, last: int, today: int)
    requires forall r :: r in rounds ==> !IsCompleted(r, today)
    ensures SelectedRounds(rounds, last, today) == []
  {
    if rounds != [] {
      var init := rounds[..|rounds| - 1];
      assert forall r :: r in init ==> r in rounds;
      assert rounds[|rounds| - 1] in rounds;
      NoneSelected(init, last, today);
    }
  }

  /** The rows of the initial table carry all statistics 0. */
  lemma InitialRowsAreZero(roster: seq<Entry>)
    ensures forall r :: r in TableRows(Names(roster), Images(roster), ApplyRounds(InitialTable(roster), [])) ==> r.stats == Zero
  {
    var tbl := InitialTable(roster);
    assert ApplyRounds(tbl, []) == tbl;
    ZeroRows(Names(roster), Images(roster), tbl);
  }

  /** Rows built from a table of zeros carry all statistics 0. */
  lemma ZeroRows(names: seq<string>, images: map<string, string>, tbl: map<string, Stats>)
    requires forall n :: n in names ==> n in images && n in tbl
    requires forall n :: n in tbl ==> tbl[n] == Zero
    ensures forall r :: r in TableRows(names, images, tbl) ==> r.stats == Zero
  {
    var rows := TableRows(names, images, tbl);
    forall i | 0 <= i < |rows|
      ensures rows[i].stats == Zero
    {
      assert names[i] in names;
    }
  }

  /** Adding a round dated after today, at any position, leaves the table
      unchanged. */
  lemma FutureRoundIgnored(d: Division, k: int, r: Round, today: int)
    requires 0 <= k <= |d.rounds|
    requires ParseDateBR(r.date).Day? && ParseDateBR(r.date).number > today
    ensures Table(d.(rounds := d.rounds[..k] + [r] + d.rounds[k..]), today) == Table(d, today)
  {
    var p, q := d.rounds[..k], d.rounds[k..];
    var rs := p + [r] + q;
    assert d.rounds == p + q;
    FutureRoundKeepsLastCompleted(d.rounds, k, r, today);
    var lc := LastCompletedRound(d.rounds, today);
    if lc.Ok? {
      var last := lc.value;
      SelectedAppend(p + [r], q, last, today);
      SelectedAppend(p, [r], last, today);
      SelectedAppend(p, q, last, today);
      assert SelectedRounds([r], last, today) == [] by {
        assert [r][..0] == [];
      }
      assert SelectedRounds(rs, last, today) == SelectedRounds(d.rounds, last, today);
    }
  }

  /** The selected rounds of two lists one after the other. */
  lemma {:induction false} SelectedAppend(a: seq<Round>, b: seq<Round>, last: int, today: int)
    ensures SelectedRounds(a + b, last, today) == SelectedRounds(a, last, today) + SelectedRounds(b, last, today)
    decreases |b|
  {
    if b == [] {
      assert a + b == a;
    } else {
      var init := b[..|b| - 1];
      assert (a + b)[..|a + b| - 1] == a + init;
      assert (a + b)[|a + b| - 1] == b[|b| - 1];
      SelectedAppend(a, init, last, today);
    }
  }

  /** Whether a match counts depends on the team names of the table only
      through its key set, and a match that does not count changes nothing:
      the table is that of the counted matches alone. */
  function CountedGames(keys: set<string>, games: seq<Game>): seq<Game>
  {
    if games == [] then []
    else
      var init := CountedGames(keys, games[..|games| - 1]);
      if Counted(keys, games[|games| - 1]) then init + [games[|games| - 1]] else init
  }

  lemma {:induction false} UncountedGamesIgnored(tbl: map<string, Stats>, games: seq<Game>)
    ensures ApplyGames(tbl, games) == ApplyGames(tbl, CountedGames(tbl.Keys, games))
  {
    if games != [] {
      var init, g := games[..|games| - 1], games[|games| - 1];
      UncountedGamesIgnored(tbl, init);
      var cg := CountedGames(tbl.Keys, init);
      var before := ApplyGames(tbl, cg);
      assert ApplyGames(tbl, games) == ApplyGame(before, g);
      if Counted(tbl.Keys, g) {
        var all := cg + [g];
        assert all[..|all| - 1] == cg && all[|all| - 1] == g;
        assert CountedGames(tbl.Keys, games) == all;
        assert ApplyGames(tbl, all) == ApplyGame(before, g);
      } else {
        assert CountedGames(tbl.Keys, games) == cg;
        assert before.Keys == tbl.Keys;
        assert ApplyGame(before, g) == before;
      }
    }
  }
}
