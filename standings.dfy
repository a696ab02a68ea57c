/** The league table of `DataProcessor`: a team record per roster name
    (`createTeamMap`), statistics zeroed (`resetTeamStats`), every counted match
    added to its two teams (`processGame`), goal differences filled in, and the
    records returned in the map's key order (`calculateTable`).

    `Table` is the functional definition of the result; `CalculateTable` builds
    it imperatively on `Team` objects and is proved to return exactly it. */
module Standings {
  import opened Wrappers
  import opened JsValues
  import opened League
  import opened Rounds

  /** The statistics of a team record: `pontos`, `vitorias`, `empates`,
      `derrotas`, `golsPro`, `golsContra`, `saldo`, `cartoesAmarelos`,
      `cartoesVermelhos`. */
  datatype Stats = Stats(
    points: int, wins: int, draws: int, losses: int,
    goalsFor: int, goalsAgainst: int, goalDifference: int,
    yellowCards: int, redCards: int)

  const Zero := Stats(0, 0, 0, 0, 0, 0, 0, 0, 0)

  /** A row of the finished table: a team record's name, image and statistics. */
  datatype Row = Row(name: string, image: string, stats: Stats)

  /** The `cardsData` argument of `processGame`; an absent field counts 0. */
  datatype Cards = Cards(yellowA: Value, redA: Value, yellowB: Value, redB: Value)

  // ----- one match ----------------------------------------------------------

  /** What a match adds to one of its teams, seen from that team: the goals it
      scored and conceded, its cards, and a win (3 points), a draw (1 point) or
      a loss. */
  function Side(s: Stats, scored: int, conceded: int, yellow: int, red: int): Stats
  {
    var t := s.(goalsFor := s.goalsFor + scored, goalsAgainst := s.goalsAgainst + conceded,
                yellowCards := s.yellowCards + yellow, redCards := s.redCards + red);
    if scored > conceded then t.(wins := t.wins + 1, points := t.points + 3)
    else if scored < conceded then t.(losses := t.losses + 1)
    else t.(draws := t.draws + 1, points := t.points + 1)
  }

  /** `processGame` on a table of statistics keyed by team name: team `a`'s
      side, then team `b`'s (the same record twice when `a == b`). */
  function ApplyMatch(tbl: map<string, Stats>, a: string, b: string, scoreA: int, scoreB: int, c: Cards): (r: map<string, Stats>)
    requires a in tbl && b in tbl
    ensures r.Keys == tbl.Keys
  {
    var t := tbl[a := Side(tbl[a], scoreA, scoreB, OrZero(c.yellowA), OrZero(c.redA))];
    t[b := Side(t[b], scoreB, scoreA, OrZero(c.yellowB), OrZero(c.redB))]
  }

  /** A match between two different teams: each team's goals for are the
      other's goals against, cards go to their own side, each team gets
      exactly one of win, draw and loss, the match hands out 3 points when
      decided and 2 when drawn, and no other team changes. */
  lemma MatchOutcome(tbl: map<string, Stats>, a: string, b: string, scoreA: int, scoreB: int, c: Cards)
    requires a in tbl && b in tbl && a != b
    ensures var r := ApplyMatch(tbl, a, b, scoreA, scoreB, c);
      && r[a].goalsFor == tbl[a].goalsFor + scoreA && r[a].goalsAgainst == tbl[a].goalsAgainst + scoreB
      && r[b].goalsFor == tbl[b].goalsFor + scoreB && r[b].goalsAgainst == tbl[b].goalsAgainst + scoreA
      && r[a].yellowCards == tbl[a].yellowCards + OrZero(c.yellowA) && r[a].redCards == tbl[a].redCards + OrZero(c.redA)
      && r[b].yellowCards == tbl[b].yellowCards + OrZero(c.yellowB) && r[b].redCards == tbl[b].redCards + OrZero(c.redB)
      && r[a].goalDifference == tbl[a].goalDifference && r[b].goalDifference == tbl[b].goalDifference
      && (scoreA > scoreB ==>
            r[a].wins == tbl[a].wins + 1 && r[a].points == tbl[a].points + 3
            && r[b].losses == tbl[b].losses + 1 && r[b].points == tbl[b].points
            && r[a].draws == tbl[a].draws && r[a].losses == tbl[a].losses
            && r[b].wins == tbl[b].wins && r[b].draws == tbl[b].draws)
      && (scoreA < scoreB ==>
            r[b].wins == tbl[b].wins + 1 && r[b].points == tbl[b].points + 3
            && r[a].losses == tbl[a].losses + 1 && r[a].points == tbl[a].points
            && r[b].draws == tbl[b].draws && r[b].losses == tbl[b].losses
            && r[a].wins == tbl[a].wins && r[a].draws == tbl[a].draws)
      && (scoreA == scoreB ==>
            r[a].draws == tbl[a].draws + 1 && r[a].points == tbl[a].points + 1
            && r[b].draws == tbl[b].draws + 1 && r[b].points == tbl[b].points + 1
            && r[a].wins == tbl[a].wins && r[a].losses == tbl[a].losses
            && r[b].wins == tbl[b].wins && r[b].losses == tbl[b].losses)
      && (r[a].points - tbl[a].points) + (r[b].points - tbl[b].points) == (if scoreA == scoreB then 2 else 3)
      && (forall n :: n in tbl && n != a && n != b ==> r[n] == tbl[n])
  {
  }

  /** No home advantage: swapping the two teams, their scores and their cards
      gives the same table, also when both sides are one team. */
  lemma MatchSymmetric(tbl: map<string, Stats>, a: string, b: string, scoreA: int, scoreB: int, c: Cards)
    requires a in tbl && b in tbl
    ensures ApplyMatch(tbl, a, b, scoreA, scoreB, c)
         == ApplyMatch(tbl, b, a, scoreB, scoreA, Cards(c.yellowB, c.redB, c.yellowA, c.redA))
  {
  }

  // ----- team records -------------------------------------------------------

  /** A team record of the map `calculateTable` builds. */
  class Team {
    var name: string
    var image: string
    var points: int
    var wins: int
    var draws: int
    var losses: int
    var goalsFor: int
    var goalsAgainst: int
    var goalDifference: int
    var yellowCards: int
    var redCards: int

    /** `{ ...team }`: a copy of a roster record. Its statistics are whatever the
        copy holds until `ResetStats`. */
    constructor (e: Entry)
      ensures name == e.name && image == e.image
    {
      name := e.name;
      image := e.image;
    }

    function Totals(): Stats
      reads this
    {
      Stats(points, wins, draws, losses, goalsFor, goalsAgainst, goalDifference, yellowCards, redCards)
    }

    function ToRow(): Row
      reads this
    {
      Row(name, image, Totals())
    }

    /** `resetTeamStats`: every statistic becomes 0. */
    method ResetStats()
      modifies this
      ensures Totals() == Zero && name == old(name) && image == old(image)
    {
      points, wins, draws, losses := 0, 0, 0, 0;
      goalsFor, goalsAgainst, goalDifference := 0, 0, 0;
      yellowCards, redCards := 0, 0;
    }

    /** Sets the goal difference (`saldo`) to goals for minus goals against. */
    method FillGoalDifference()
      modifies this
      ensures Totals() == WithDifference(old(Totals())) && name == old(name) && image == old(image)
    {
      goalDifference := goalsFor - goalsAgainst;
    }
  }

  /** `processGame(teamA, teamB, scoreA, scoreB, cardsData)`: adds the goals
      and cards of a match to the two records and records the outcome. When
      both arguments are the same record it receives both sides. */
  method ProcessGame(a: Team, b: Team, scoreA: int, scoreB: int, cards: Cards)
    modifies a, b
    ensures a.name == old(a.name) && a.image == old(a.image)
    ensures b.name == old(b.name) && b.image == old(b.image)
    ensures a != b ==>
      && a.Totals() == Side(old(a.Totals()), scoreA, scoreB, OrZero(cards.yellowA), OrZero(cards.redA))
      && b.Totals() == Side(old(b.Totals()), scoreB, scoreA, OrZero(cards.yellowB), OrZero(cards.redB))
    ensures a == b ==>
      a.Totals() == Side(Side(old(a.Totals()), scoreA, scoreB, OrZero(cards.yellowA), OrZero(cards.redA)),
                         scoreB, scoreA, OrZero(cards.yellowB), OrZero(cards.redB))
  {
    ghost var sa, sb := a.Totals(), b.Totals();
    ghost var ya, ra, yb, rb := OrZero(cards.yellowA), OrZero(cards.redA), OrZero(cards.yellowB), OrZero(cards.redB);
    a.goalsFor := a.goalsFor + scoreA;
    a.goalsAgainst := a.goalsAgainst + scoreB;
    b.goalsFor := b.goalsFor + scoreB;
    b.goalsAgainst := b.goalsAgainst + scoreA;
    a.yellowCards := a.yellowCards + OrZero(cards.yellowA);
    a.redCards := a.redCards + OrZero(cards.redA);
    b.yellowCards := b.yellowCards + OrZero(cards.yellowB);
    b.redCards := b.redCards + OrZero(cards.redB);
    if scoreA > scoreB {
      a.wins := a.wins + 1;
      a.points := a.points + 3;
      b.losses := b.losses + 1;
    } else if scoreA < scoreB {
      b.wins := b.wins + 1;
      b.points := b.points + 3;
      a.losses := a.losses + 1;
    } else {
      a.draws := a.draws + 1;
      b.draws := b.draws + 1;
      a.points := a.points + 1;
      b.points := b.points + 1;
    }
    if a == b {
      SideTwice(sa, scoreA, scoreB, ya, ra, yb, rb, a.Totals());
    } else {
      SideOnce(sa, scoreA, scoreB, ya, ra, a.Totals());
      SideOnce(sb, scoreB, scoreA, yb, rb, b.Totals());
    }
  }

  /** One side of a match applied to a record. */
  lemma SideOnce(s: Stats, x: int, y: int, yellow: int, red: int, r: Stats)
    requires r.goalsFor == s.goalsFor + x && r.goalsAgainst == s.goalsAgainst + y
    requires r.yellowCards == s.yellowCards + yellow && r.redCards == s.redCards + red
    requires r.goalDifference == s.goalDifference
    requires x > y ==> r.wins == s.wins + 1 && r.losses == s.losses && r.points == s.points + 3 && r.draws == s.draws
    requires x < y ==> r.wins == s.wins && r.losses == s.losses + 1 && r.points == s.points && r.draws == s.draws
    requires x == y ==> r.wins == s.wins && r.losses == s.losses && r.points == s.points + 1 && r.draws == s.draws + 1
    ensures r == Side(s, x, y, yellow, red)
  {
  }

  /** Both sides of a match applied to one record. */
  lemma SideTwice(s: Stats, x: int, y: int, ya: int, ra: int, yb: int, rb: int, r: Stats)
    requires r.goalsFor == s.goalsFor + x + y && r.goalsAgainst == s.goalsAgainst + y + x
    requires r.yellowCards == s.yellowCards + ya + yb && r.redCards == s.redCards + ra + rb
    requires r.goalDifference == s.goalDifference
    requires x != y ==> r.wins == s.wins + 1 && r.losses == s.losses + 1 && r.points == s.points + 3 && r.draws == s.draws
    requires x == y ==> r.wins == s.wins && r.losses == s.losses && r.points == s.points + 2 && r.draws == s.draws + 2
    ensures r == Side(Side(s, x, y, ya, ra), y, x, yb, rb)
  {
  }

  // ----- the team map -------------------------------------------------------

  /** The roster's names. */
  function NameSet(roster: seq<Entry>): set<string>
  {
    if roster == [] then {} else NameSet(roster[..|roster| - 1]) + {roster[|roster| - 1].name}
  }

  /** The names of the set are those of the roster's entries. */
  lemma {:induction false} NameSetMembers(roster: seq<Entry>, n: string)
    ensures n in NameSet(roster) <==> exists i :: 0 <= i < |roster| && roster[i].name == n
  {
    if roster != [] {
      var init := roster[..|roster| - 1];
      NameSetMembers(init, n);
      if n in NameSet(init) {
        var i :| 0 <= i < |init| && init[i].name == n;
        assert roster[i].name == n;
      }
      if exists i :: 0 <= i < |roster| && roster[i].name == n {
        var i :| 0 <= i < |roster| && roster[i].name == n;
        if i < |init| {
          assert init[i].name == n;
        }
      }
    }
  }

  /** The keys of the team map in the order `Object.values` lists them: each
      name once, where it first occurs in the roster. */
  function Names(roster: seq<Entry>): (names: seq<string>)
    ensures forall i, j :: 0 <= i < j < |names| ==> names[i] != names[j]
    ensures forall n :: n in names <==> n in NameSet(roster)
  {
    if roster == [] then []
    else
      var init, last := roster[..|roster| - 1], roster[|roster| - 1];
      var names := Names(init);
      if last.name in names then names else names + [last.name]
  }

  /** The image of each name's record: the one of its last roster entry, since
      a later entry with the same name overwrites the earlier copy. */
  function Images(roster: seq<Entry>): (m: map<string, string>)
    ensures m.Keys == NameSet(roster)
  {
    if roster == [] then map[]
    else
      var init, last := roster[..|roster| - 1], roster[|roster| - 1];
      Images(init)[last.name := last.image]
  }

  /** No roster entry after the `i`th has its name. */
  predicate LastWithName(roster: seq<Entry>, i: int)
    requires 0 <= i < |roster|
  {
    forall j :: i < j < |roster| ==> roster[j].name != roster[i].name
  }

  /** A roster entry that no later entry shares its name with sets that
      name's image. */
  lemma {:induction false} ImageOfLastEntry(roster: seq<Entry>, i: int)
    requires 0 <= i < |roster|
    requires LastWithName(roster, i)
    ensures roster[i].name in Images(roster) && Images(roster)[roster[i].name] == roster[i].image
  {
    NameSetMembers(roster, roster[i].name);
    var init := roster[..|roster| - 1];
    if i < |roster| - 1 {
      assert roster[i] == init[i];
      assert forall j :: i < j < |init| ==> init[j] == roster[j];
      ImageOfLastEntry(init, i);
    }
  }

  /** Every roster name with all statistics 0. */
  function InitialTable(roster: seq<Entry>): map<string, Stats>
  {
    map n | n in NameSet(roster) :: Zero
  }

  /** Each record carries its own key as its name and the given image. */
  ghost predicate Labelled(teams: map<string, Team>, images: map<string, string>)
    reads teams.Values
  {
    teams.Keys == images.Keys &&
    forall n :: n in teams ==> teams[n].name == n && teams[n].image == images[n]
  }

  /** The statistics of the records are those of the table. */
  ghost predicate Mirrors(teams: map<string, Team>, tbl: map<string, Stats>)
    reads teams.Values
  {
    teams.Keys == tbl.Keys &&
    forall n :: n in teams ==> teams[n].Totals() == tbl[n]
  }

  /** `createTeamMap`: a fresh copy of every roster record, keyed by name,
      with the keys in insertion order. */
  method CreateTeamMap(roster: seq<Entry>) returns (teams: map<string, Team>, keys: seq<string>)
    ensures keys == Names(roster) && teams.Keys == NameSet(roster)
    ensures Labelled(teams, Images(roster))
    ensures forall n :: n in teams ==> fresh(teams[n])
  {
    teams, keys := map[], [];
    var i := 0;
    while i < |roster|
      invariant 0 <= i <= |roster|
      invariant keys == Names(roster[..i]) && teams.Keys == NameSet(roster[..i])
      invariant Labelled(teams, Images(roster[..i]))
      invariant forall n :: n in teams ==> fresh(teams[n])
    {
      RosterStep(roster, i);
      teams, keys := AddCopy(teams, keys, roster[i], Images(roster[..i]));
      i := i + 1;
    }
    assert roster[..i] == roster;
  }

  /** `teamMap[team.nome] = { ...team }` for one roster record. */
  method AddCopy(teams: map<string, Team>, keys: seq<string>, e: Entry, ghost images: map<string, string>)
    returns (teams': map<string, Team>, keys': seq<string>)
    requires Labelled(teams, images)
    ensures keys' == if e.name in teams then keys else keys + [e.name]
    ensures teams'.Keys == teams.Keys + {e.name}
    ensures Labelled(teams', images[e.name := e.image])
    ensures fresh(teams'[e.name])
    ensures forall n :: n in teams' && n != e.name ==> teams'[n] == teams[n]
  {
    var copy := new Team(e);
    keys' := if e.name in teams then keys else keys + [e.name];
    teams' := teams[e.name := copy];
  }

  /** How the names, keys and images grow by one roster entry. */
  lemma RosterStep(roster: seq<Entry>, i: int)
    requires 0 <= i < |roster|
    ensures var p, q, e := roster[..i], roster[..i + 1], roster[i];
      && NameSet(q) == NameSet(p) + {e.name}
      && Names(q) == (if e.name in NameSet(p) then Names(p) else Names(p) + [e.name])
      && Images(q) == Images(p)[e.name := e.image]
  {
    assert roster[..i + 1][..i] == roster[..i];
  }

  /** `Object.values(teamMap).forEach(resetTeamStats)`. */
  method ResetAll(teams: map<string, Team>, keys: seq<string>, ghost images: map<string, string>)
    requires Labelled(teams, images)
    requires forall n :: n in teams <==> n in keys
    modifies teams.Values
    ensures Labelled(teams, images)
    ensures forall n :: n in teams ==> teams[n].Totals() == Zero
  {
    var i := 0;
    while i < |keys|
      invariant 0 <= i <= |keys|
      invariant Labelled(teams, images)
      invariant forall j :: 0 <= j < i ==> teams[keys[j]].Totals() == Zero
    {
      teams[keys[i]].ResetStats();
      i := i + 1;
    }
  }

  // ----- which matches count -------------------------------------------------

  /** A match counted by `calculateTable`: both scores present and both team
      names in the team map. */
  predicate Counted(keys: set<string>, g: Game)
  {
    IsPresent(g.scoreA) && IsPresent(g.scoreB) && g.teamA in keys && g.teamB in keys
  }

  /** The `cardsData` that `calculateTable` builds for a match. */
  function CardsOf(g: Game): Cards
  {
    Cards(Num(OrZero(g.yellowA)), Num(OrZero(g.redA)), Num(OrZero(g.yellowB)), Num(OrZero(g.redB)))
  }

  /** One match of the inner `forEach`: counted matches are processed, the
      others leave the table as it is. */
  function ApplyGame(tbl: map<string, Stats>, g: Game): (r: map<string, Stats>)
    ensures r.Keys == tbl.Keys
  {
    if Counted(tbl.Keys, g) then ApplyMatch(tbl, g.teamA, g.teamB, g.scoreA.n, g.scoreB.n, CardsOf(g))
    else tbl
  }

  /** The matches of a round, in order. */
  function ApplyGames(tbl: map<string, Stats>, games: seq<Game>): (r: map<string, Stats>)
    ensures r.Keys == tbl.Keys
  {
    if games == [] then tbl
    else ApplyGame(ApplyGames(tbl, games[..|games| - 1]), games[|games| - 1])
  }

  /** The matches of a list of rounds, round by round. */
  function ApplyRounds(tbl: map<string, Stats>, rounds: seq<Round>): (r: map<string, Stats>)
    ensures r.Keys == tbl.Keys
  {
    if rounds == [] then tbl
    else ApplyGames(ApplyRounds(tbl, rounds[..|rounds| - 1]), rounds[|rounds| - 1].games)
  }

  /** A round `calculateTable` takes: numbered at most the last completed
      round and dated on or before today. */
  predicate Selected(r: Round, last: int, today: int)
  {
    r.number <= last && IsCompleted(r, today)
  }

  /** The `filter` of `calculateTable`, in order. */
  function SelectedRounds(rounds: seq<Round>, last: int, today: int): (c: seq<Round>)
    ensures forall r :: r in c <==> r in rounds && Selected(r, last, today)
  {
    if rounds == [] then []
    else
      var init := SelectedRounds(rounds[..|rounds| - 1], last, today);
      if Selected(rounds[|rounds| - 1], last, today) then init + [rounds[|rounds| - 1]] else init
  }

  // ----- the table ------------------------------------------------------------

  function WithDifference(s: Stats): Stats
  {
    s.(goalDifference := s.goalsFor - s.goalsAgainst)
  }

  /** The rows in key order, each with its goal difference filled in. */
  function TableRows(names: seq<string>, images: map<string, string>, tbl: map<string, Stats>): (rows: seq<Row>)
    requires forall n :: n in names ==> n in images && n in tbl
    ensures |rows| == |names|
  {
    seq(|names|, i requires 0 <= i < |names| => Row(names[i], images[names[i]], WithDifference(tbl[names[i]])))
  }

  /** What `calculateTable` returns for a division and today's day number. */
  function Table(d: Division, today: int): (r: Result<seq<Row>>)
    ensures r.Thrown? <==> AnyTypeError(d.rounds)
    ensures r.Ok? ==> |r.value| == |Names(d.roster)|
  {
    match LastCompletedRound(d.rounds, today)
    case Thrown => Thrown
    case Ok(last) =>
      var tbl := ApplyRounds(InitialTable(d.roster), SelectedRounds(d.rounds, last, today));
      Ok(TableRows(Names(d.roster), Images(d.roster), tbl))
  }

  // ----- calculateTable ---------------------------------------------------------

  /** `processGame` on the records of one match when it counts. */
  method ApplyGameToTeams(teams: map<string, Team>, g: Game, ghost tbl: map<string, Stats>, ghost images: map<string, string>)
    requires Labelled(teams, images) && Mirrors(teams, tbl)
    modifies teams.Values
    ensures Labelled(teams, images) && Mirrors(teams, ApplyGame(tbl, g))
  {
    if IsPresent(g.scoreA) && IsPresent(g.scoreB) {
      if g.teamA in teams && g.teamB in teams {
        var a, b := teams[g.teamA], teams[g.teamB];
        ProcessGame(a, b, g.scoreA.n, g.scoreB.n, CardsOf(g));
      }
    }
  }

  /** The inner `forEach` over the matches of one round. */
  method ApplyGamesToTeams(teams: map<string, Team>, games: seq<Game>, ghost tbl: map<string, Stats>, ghost images: map<string, string>)
    requires Labelled(teams, images) && Mirrors(teams, tbl)
    modifies teams.Values
    ensures Labelled(teams, images) && Mirrors(teams, ApplyGames(tbl, games))
  {
    var j := 0;
    while j < |games|
      invariant 0 <= j <= |games|
      invariant Labelled(teams, images) && Mirrors(teams, ApplyGames(tbl, games[..j]))
    {
      assert games[..j + 1][..j] == games[..j];
      ApplyGameToTeams(teams, games[j], ApplyGames(tbl, games[..j]), images);
      j := j + 1;
    }
    assert games[..j] == games;
  }

  /** The outer `forEach` over the selected rounds. */
  method ApplyRoundsToTeams(teams: map<string, Team>, rounds: seq<Round>, ghost tbl: map<string, Stats>, ghost images: map<string, string>)
    requires Labelled(teams, images) && Mirrors(teams, tbl)
    modifies teams.Values
    ensures Labelled(teams, images) && Mirrors(teams, ApplyRounds(tbl, rounds))
  {
    var i := 0;
    while i < |rounds|
      invariant 0 <= i <= |rounds|
      invariant Labelled(teams, images) && Mirrors(teams, ApplyRounds(tbl, rounds[..i]))
    {
      assert rounds[..i + 1][..i] == rounds[..i];
      ApplyGamesToTeams(teams, rounds[i].games, ApplyRounds(tbl, rounds[..i]), images);
      i := i + 1;
    }
    assert rounds[..i] == rounds;
  }

  /** `team.saldo = team.golsPro - team.golsContra` for every record. */
  method FillGoalDifferences(teams: map<string, Team>, keys: seq<string>, ghost tbl: map<string, Stats>, ghost images: map<string, string>)
    requires Labelled(teams, images) && Mirrors(teams, tbl)
    requires forall n :: n in teams <==> n in keys
    requires forall i, j :: 0 <= i < j < |keys| ==> keys[i] != keys[j]
    modifies teams.Values
    ensures Labelled(teams, images)
    ensures forall n :: n in teams ==> teams[n].Totals() == WithDifference(tbl[n])
  {
    var i := 0;
    while i < |keys|
      invariant 0 <= i <= |keys|
      invariant Labelled(teams, images)
      invariant forall j :: 0 <= j < i ==> teams[keys[j]].Totals() == WithDifference(tbl[keys[j]])
      invariant forall j :: i <= j < |keys| ==> teams[keys[j]].Totals() == tbl[keys[j]]
    {
      var t := teams[keys[i]];
      forall j | 0 <= j < |keys| && j != i
        ensures teams[keys[j]] != t
      {
        assert teams[keys[j]].name == keys[j];
      }
      t.FillGoalDifference();
      i := i + 1;
    }
  }

  /** `Object.values(teamMap)`: the records in key order. */
  method CollectRows(teams: map<string, Team>, keys: seq<string>, ghost tbl: map<string, Stats>, ghost images: map<string, string>)
    returns (rows: seq<Row>)
    requires Labelled(teams, images) && teams.Keys == tbl.Keys
    requires forall n :: n in teams <==> n in keys
    requires forall n :: n in teams ==> teams[n].Totals() == WithDifference(tbl[n])
    ensures rows == TableRows(keys, images, tbl)
  {
    rows := [];
    var i := 0;
    while i < |keys|
      invariant 0 <= i <= |keys| && |rows| == i
      invariant forall j :: 0 <= j < i ==> rows[j] == Row(keys[j], images[keys[j]], WithDifference(tbl[keys[j]]))
    {
      rows := rows + [teams[keys[i]].ToRow()];
      i := i + 1;
    }
  }

  /** `calculateTable(serie, data, getLastCompletedRodada)` for a division that
      exists, given today's day number: the table `Table` defines, or the
      TypeError that computing the last completed round throws. */
  method CalculateTable(d: Division, today: int) returns (result: Result<seq<Row>>)
    ensures result == Table(d, today)
  {
    var teams, keys := CreateTeamMap(d.roster);
    ghost var images := Images(d.roster);
    ResetAll(teams, keys, images);
    ghost var tbl := InitialTable(d.roster);
    assert Mirrors(teams, tbl);
    var lastRound := LastCompletedRound(d.rounds, today);
    if lastRound.Thrown? {
      return Thrown;
    }
    var completed := SelectedRounds(d.rounds, lastRound.value, today);
    ApplyRoundsToTeams(teams, completed, tbl, images);
    tbl := ApplyRounds(tbl, completed);
    FillGoalDifferences(teams, keys, tbl, images);
    var rows := CollectRows(teams, keys, tbl, images);
    result := Ok(rows);
  }
}
