/** The league records the standings code reads: roster entries of
    `times.json` and rounds of `rodadas.json`, one division ("série") each. */
module League {
  import opened JsValues

  /** A roster record `{ nome, imagem }`. */
  datatype Entry = Entry(name: string, image: string)

  /** A match record (`jogo`): the two team names (`timeA`, `timeB`), the
      scores (`placarA`, `placarB`; `null` or absent while unplayed), the card
      counts per side and the penalty-shootout scores of a knockout tie. */
  datatype Game = Game(
    teamA: string, teamB: string,
    scoreA: Value, scoreB: Value,
    yellowA: Value, redA: Value, yellowB: Value, redB: Value,
    penaltiesA: Value, penaltiesB: Value)

  /** A round record (`rodada`): its number, its date as "DD/MM/YYYY" and its
      matches. Several rounds may share a number. */
  datatype Round = Round(number: int, date: string, games: seq<Game>)

  /** A division: its roster (`times`) and its rounds (`rodadas`). */
  datatype Division = Division(roster: seq<Entry>, rounds: seq<Round>)
}
