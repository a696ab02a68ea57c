/** Which round the page shows: the last completed round of a division
    (`AppState.getLastCompletedRodada`), the largest round number, and the
    application state that the division buttons and the previous/next round
    buttons update. */
module Rounds {
  import opened Wrappers
  import opened Dates
  import opened League

  /** A round whose date is on or before today. A round with an invalid date
      is never completed. */
  predicate IsCompleted(r: Round, today: int)
  {
    OnOrBefore(ParseDateBR(r.date), today)
  }

  /** Some round's date makes the date parsing throw. */
  predicate AnyTypeError(rounds: seq<Round>)
  {
    exists i :: 0 <= i < |rounds| && ParseDateBR(rounds[i].date).TypeError?
  }

  /** The rounds dated on or before today, in order (the `filter` of
      `getLastCompletedRodada`). */
  function Completed(rounds: seq<Round>, today: int): (c: seq<Round>)
    ensures forall r :: r in c <==> r in rounds && IsCompleted(r, today)
  {
    if rounds == [] then []
    else
      var init, last := rounds[..|rounds| - 1], rounds[|rounds| - 1];
      assert rounds == init + [last];
      if IsCompleted(last, today) then Completed(init, today) + [last] else Completed(init, today)
  }

  /** The largest round number of a non-empty list of rounds (`Math.max`
      over the mapped numbers). */
  function MaxNumber(rounds: seq<Round>): (m: int)
    requires rounds != []
    ensures exists r :: r in rounds && r.number == m
    ensures forall r :: r in rounds ==> r.number <= m
  {
    if |rounds| == 1 then rounds[0].number
    else
      var init, last := rounds[..|rounds| - 1], rounds[|rounds| - 1];
      assert rounds == init + [last];
      var m := MaxNumber(init);
      if m < last.number then last.number else m
  }

  /** `getLastCompletedRodada` for a division that has rounds: the largest
      number of a round dated on or before today, or 1 when no round is. The
      date of every round is parsed, so a date without '/' makes it throw. */
  function LastCompletedRound(rounds: seq<Round>, today: int): (r: Result<int>)
    ensures r.Thrown? <==> AnyTypeError(rounds)
    ensures r.Ok? && (forall x :: x in rounds ==> !IsCompleted(x, today)) ==> r.value == 1
    ensures r.Ok? ==> forall x :: x in rounds && IsCompleted(x, today) ==> x.number <= r.value
    ensures r.Ok? && (exists x :: x in rounds && IsCompleted(x, today)) ==>
              exists x :: x in rounds && IsCompleted(x, today) && x.number == r.value
  {
    if AnyTypeError(rounds) then Thrown
    else
      var c := Completed(rounds, today);
      if c == [] then Ok(1) else Ok(MaxNumber(c))
  }

  /** The largest round number present, or 1 when there are no rounds. */
  function MaxRound(rounds: seq<Round>): (r: int)
    ensures rounds == [] ==> r == 1
    ensures rounds != [] ==> exists x :: x in rounds && x.number == r
    ensures forall x :: x in rounds ==> x.number <= r
  {
    if rounds == [] then 1 else MaxNumber(rounds)
  }

  /** When every round number is at least 1, the last completed round lies
      between 1 and the largest round number, a round the navigation can reach. */
  lemma LastCompletedWithinNavigation(rounds: seq<Round>, today: int)
    requires forall x :: x in rounds ==> x.number >= 1
    requires LastCompletedRound(rounds, today).Ok?
    ensures 1 <= LastCompletedRound(rounds, today).value <= MaxRound(rounds)
  {
    var k := LastCompletedRound(rounds, today).value;
    if rounds != [] {
      assert rounds[0] in rounds;
    }
    if exists x :: x in rounds && IsCompleted(x, today) {
      var x :| x in rounds && IsCompleted(x, today) && x.number == k;
    }
  }

  /** Adding a round dated after today, at any position, changes neither
      whether the computation throws nor the last completed round. */
  lemma FutureRoundKeepsLastCompleted(rounds: seq<Round>, k: int, r: Round, today: int)
    requires 0 <= k <= |rounds|
    requires ParseDateBR(r.date).Day? && ParseDateBR(r.date).number > today
    ensures LastCompletedRound(rounds[..k] + [r] + rounds[k..], today) == LastCompletedRound(rounds, today)
  {
    var p, q := rounds[..k], rounds[k..];
    var rs := p + [r] + q;
    assert rounds == p + q;
    CompletedAppend(p + [r], q, today);
    CompletedAppend(p, [r], today);
    CompletedAppend(p, q, today);
    assert Completed([r], today) == [] by {
      assert [r][..0] == [];
    }
    assert Completed(rs, today) == Completed(rounds, today);
    InsertedRoundThrows(rounds, k, r);
  }

  /** The completed rounds of two lists one after the other. */
  lemma {:induction false} CompletedAppend(a: seq<Round>, b: seq<Round>, today: int)
    ensures Completed(a + b, today) == Completed(a, today) + Completed(b, today)
    decreases |b|
  {
    if b == [] {
      assert a + b == a;
    } else {
      var init := b[..|b| - 1];
      assert (a + b)[..|a + b| - 1] == a + init;
      assert (a + b)[|a + b| - 1] == b[|b| - 1];
      CompletedAppend(a, init, today);
    }
  }

  /** Adding a round whose date does not throw leaves the throw as it was. */
  lemma InsertedRoundThrows(rounds: seq<Round>, k: int, r: Round)
    requires 0 <= k <= |rounds|
    requires !ParseDateBR(r.date).TypeError?
    ensures AnyTypeError(rounds[..k] + [r] + rounds[k..]) == AnyTypeError(rounds)
  {
    var rs := rounds[..k] + [r] + rounds[k..];
    assert |rs| == |rounds| + 1;
    assert forall i :: 0 <= i < k ==> rs[i] == rounds[i];
    assert forall i :: k <= i < |rounds| ==> rs[i + 1] == rounds[i];
    if AnyTypeError(rs) {
      var i :| 0 <= i < |rs| && ParseDateBR(rs[i].date).TypeError?;
      if i < k {
        assert ParseDateBR(rounds[i].date).TypeError?;
      } else {
        assert i != k && ParseDateBR(rounds[i - 1].date).TypeError?;
      }
    }
    if AnyTypeError(rounds) {
      var i :| 0 <= i < |rounds| && ParseDateBR(rounds[i].date).TypeError?;
      if i < k {
        assert ParseDateBR(rs[i].date).TypeError?;
      } else {
        assert ParseDateBR(rs[i + 1].date).TypeError?;
      }
    }
  }

  /** Of two rounds with valid dates, only the first completed: the last
      completed round is the first one's number. */
  lemma FirstOfTwoCompleted(r1: Round, r2: Round, today: int)
    requires ParseDateBR(r1.date).Day? && ParseDateBR(r2.date).Day?
    requires IsCompleted(r1, today) && !IsCompleted(r2, today)
    ensures LastCompletedRound([r1, r2], today) == Ok(r1.number)
  {
    var rs := [r1, r2];
    assert !AnyTypeError(rs) by {
      forall i | 0 <= i < |rs| ensures !ParseDateBR(rs[i].date).TypeError? {
        if i == 1 { assert rs[i] == r2; }
      }
    }
    assert Completed([r1], today) == [r1] by {
      assert [r1][..0] == [];
    }
    assert Completed(rs, today) == [r1] by {
      assert rs[..1] == [r1] && rs[1] == r2;
    }
    assert MaxNumber([r1]) == r1.number;
  }

  /** A round of 2024 is completed and a round dated 2099 (a date still to
      be decided) is not: the last completed round is the 2024 one. */
  lemma PlaceholderRoundNotCompleted(today: int)
    requires DayNumber(2024, 1, 1) <= today < DayNumber(2099, 1, 1)
    ensures LastCompletedRound([Round(1, FormatBR(2024, 1, 1), []), Round(2, FormatBR(2099, 1, 1), [])], today) == Ok(1)
  {
    ParseFormatBR(2024, 1, 1);
    ParseFormatBR(2099, 1, 1);
    FirstOfTwoCompleted(Round(1, FormatBR(2024, 1, 1), []), Round(2, FormatBR(2099, 1, 1), []), today);
  }

  /** The application state: the division and round on display and the
      dataset (`null` until it is loaded). */
  class AppState {
    var currentSerie: string
    var currentRound: int
    var data: Option<map<string, Division>>

    /** The initial state: division "ouro", round 9, no data. */
    constructor ()
      ensures currentSerie == "ouro" && currentRound == 9 && data == None
    {
      currentSerie := "ouro";
      currentRound := 9;
      data := None;
    }

    /** `getLastCompletedRodada(serie)`: 1 while there is no data or no such
      division. */
    function LastCompleted(serie: string, today: int): Result<int>
      reads this
    {
      if data.None? || serie !in data.value then Ok(1)
      else LastCompletedRound(data.value[serie].rounds, today)
    }

    /** The rounds the "next" button looks at: the current division's, or
      none when the division is missing. */
    function NavigationRounds(): seq<Round>
      reads this
      requires data.Some?
    {
      if currentSerie in data.value then data.value[currentSerie].rounds else []
    }

    /** The round on display is one the navigation can reach. */
    ghost predicate InBounds()
      reads this
    {
      data.Some? && 1 <= currentRound <= MaxRound(NavigationRounds())
    }

    /** Every round number of every division is at least 1. */
    ghost predicate PositiveRoundNumbers()
      reads this
    {
      data.Some? &&
      forall s, x :: s in data.value && x in data.value[s].rounds ==> x.number >= 1
    }

    /** The dataset has been loaded: the page starts on the largest round
      number of the current division (1 when it has none). */
    method Load(d: map<string, Division>)
      modifies this`data, this`currentRound
      ensures data == Some(d) && currentSerie == old(currentSerie)
      ensures currentRound == MaxRound(NavigationRounds())
      ensures currentRound >= 1 ==> InBounds()
    {
      data := Some(d);
      var rounds := if currentSerie in d then d[currentSerie].rounds else [];
      currentRound := MaxRound(rounds);
    }

    /** `changeSerie`: switch division and show its last completed round. The
      division changes even when computing that round throws. */
    method ChangeSerie(newSerie: string, today: int) returns (thrown: bool)
      modifies this`currentSerie, this`currentRound
      ensures currentSerie == newSerie && data == old(data)
      ensures thrown <==> old(LastCompleted(newSerie, today)).Thrown?
      ensures !thrown ==> currentRound == old(LastCompleted(newSerie, today)).value
      ensures thrown ==> currentRound == old(currentRound)
      ensures !thrown && PositiveRoundNumbers() ==> InBounds()
    {
      currentSerie := newSerie;
      var last := LastCompleted(newSerie, today);
      if last.Thrown? {
        return true;
      }
      currentRound := last.value;
      thrown := false;
      if PositiveRoundNumbers() && newSerie in data.value {
        LastCompletedWithinNavigation(data.value[newSerie].rounds, today);
      }
    }

    /** The "previous round" button: step back unless at round 1. */
    method PreviousRound()
      modifies this`currentRound
      ensures currentRound == if old(currentRound) > 1 then old(currentRound) - 1 else old(currentRound)
      ensures old(InBounds()) ==> InBounds()
    {
      if currentRound > 1 {
        currentRound := currentRound - 1;
      }
    }

    /** The "next round" button: step forward unless at the largest round
      number of the current division. Reading the rounds throws while there
      is no data. */
    method NextRound() returns (thrown: bool)
      modifies this`currentRound
      ensures thrown <==> data.None?
      ensures thrown ==> currentRound == old(currentRound)
      ensures !thrown ==> currentRound == (if old(currentRound) < MaxRound(NavigationRounds())
                                           then old(currentRound) + 1 else old(currentRound))
      ensures old(InBounds()) ==> InBounds()
    {
      if data.None? {
        return true;
      }
      thrown := false;
      var maxRound := MaxRound(NavigationRounds());
      if currentRound < maxRound {
        currentRound := currentRound + 1;
      }
    }
  }
}
