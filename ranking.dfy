/** `DataProcessor.sortTeams`: the table ordered by points, then wins, then
    goal difference (all descending), then the disciplinary score
    (`red * 15 + yellow * 5`, ascending). `Array.prototype.sort` is stable, so
    rows equal on all four keys keep their order. */
module Ranking {
  import opened Standings

  /** 15 per red card and 5 per yellow card; fewer ranks better. */
  function DisciplinaryScore(s: Stats): int
  {
    s.redCards * 15 + s.yellowCards * 5
  }

  /** The comparator of `sortTeams`: negative when `a` goes first. */
  function Compare(a: Row, b: Row): int
  {
    if b.stats.points != a.stats.points then b.stats.points - a.stats.points
    else if b.stats.wins != a.stats.wins then b.stats.wins - a.stats.wins
    else if b.stats.goalDifference != a.stats.goalDifference then b.stats.goalDifference - a.stats.goalDifference
    else DisciplinaryScore(a.stats) - DisciplinaryScore(b.stats)
  }

  /** `a` ranks strictly ahead of `b`: the lexicographic order on
      (points, wins, goal difference) descending, then disciplinary score ascending. */
  predicate Ahead(a: Row, b: Row)
  {
    a.stats.points > b.stats.points
    || (a.stats.points == b.stats.points && a.stats.wins > b.stats.wins)
    || (a.stats.points == b.stats.points && a.stats.wins == b.stats.wins
        && a.stats.goalDifference > b.stats.goalDifference)
    || (a.stats.points == b.stats.points && a.stats.wins == b.stats.wins
        && a.stats.goalDifference == b.stats.goalDifference
        && DisciplinaryScore(a.stats) < DisciplinaryScore(b.stats))
  }

  /** `a` and `b` are equal on all four ranking keys. */
  predicate SameKeys(a: Row, b: Row)
  {
    a.stats.points == b.stats.points && a.stats.wins == b.stats.wins
    && a.stats.goalDifference == b.stats.goalDifference
    && DisciplinaryScore(a.stats) == DisciplinaryScore(b.stats)
  }

  /** The comparator is consistent: its sign is the lexicographic order on the
      keys, it is antisymmetric, and it is 0 exactly on rows with equal keys. */
  lemma CompareIsLexicographic(a: Row, b: Row)
    ensures Compare(a, b) < 0 <==> Ahead(a, b)
    ensures Compare(a, b) > 0 <==> Ahead(b, a)
    ensures Compare(a, b) == 0 <==> SameKeys(a, b)
    ensures Compare(a, b) == -Compare(b, a)
  {
  }

  /** `a` may stand before `b` in an ordered table. */
  predicate NotBehind(a: Row, b: Row)
  {
    !Ahead(b, a)
  }

  lemma NotBehindTransitive(a: Row, b: Row, c: Row)
    requires NotBehind(a, b) && NotBehind(b, c)
    ensures NotBehind(a, c)
  {
  }

  /** No row ranks strictly ahead of a row before it. */
  ghost predicate Ordered(s: seq<Row>)
  {
    forall i, j :: 0 <= i < j < |s| ==> NotBehind(s[i], s[j])
  }

  /** Inserting `x` into an ordered table: it goes after every row it does not
      rank strictly ahead of, so it comes after the rows with equal keys. */
  function Insert(s: seq<Row>, x: Row): seq<Row>
  {
    if s == [] || Compare(x, s[|s| - 1]) >= 0 then s + [x]
    else Insert(s[..|s| - 1], x) + [s[|s| - 1]]
  }

  /** The ranked table: the rows inserted one at a time, in order. */
  function Ranked(s: seq<Row>): seq<Row>
  {
    if s == [] then [] else Insert(Ranked(s[..|s| - 1]), s[|s| - 1])
  }

  lemma {:induction false} InsertPermutes(s: seq<Row>, x: Row)
    ensures multiset(Insert(s, x)) == multiset(s) + multiset{x}
  {
    if s != [] && Compare(x, s[|s| - 1]) < 0 {
      InsertPermutes(s[..|s| - 1], x);
      assert s == s[..|s| - 1] + [s[|s| - 1]];
    }
  }

  /** The ranked table holds exactly the rows of the input. */
  lemma {:induction false} RankedPermutes(s: seq<Row>)
    ensures multiset(Ranked(s)) == multiset(s)
  {
    if s != [] {
      RankedPermutes(s[..|s| - 1]);
      InsertPermutes(Ranked(s[..|s| - 1]), s[|s| - 1]);
      assert s == s[..|s| - 1] + [s[|s| - 1]];
    }
  }

  lemma {:induction false} InsertOrdered(s: seq<Row>, x: Row)
    requires Ordered(s)
    ensures Ordered(Insert(s, x))
  {
    if s == [] {
    } else if Compare(x, s[|s| - 1]) >= 0 {
      CompareIsLexicographic(x, s[|s| - 1]);
      var r := s + [x];
      forall i, j | 0 <= i < j < |r| ensures NotBehind(r[i], r[j]) {
        if j == |s| && i < |s| - 1 {
          NotBehindTransitive(s[i], s[|s| - 1], x);
        }
      }
    } else {
      var init, last := s[..|s| - 1], s[|s| - 1];
      CompareIsLexicographic(x, last);
      InsertOrdered(init, x);
      var t := Insert(init, x);
      InsertPermutes(init, x);
      var r := t + [last];
      forall i, j | 0 <= i < j < |r| ensures NotBehind(r[i], r[j]) {
        if j == |t| {
          assert r[i] in multiset(t);
          if r[i] != x {
            assert r[i] in multiset(init);
            var k :| 0 <= k < |init| && init[k] == r[i];
            assert s[k] == r[i];
          }
        }
      }
    }
  }

  /** The ranked table is ordered: no row is ranked strictly ahead of one before it. */
  lemma {:induction false} RankedOrdered(s: seq<Row>)
    ensures Ordered(Ranked(s))
  {
    if s != [] {
      RankedOrdered(s[..|s| - 1]);
      InsertOrdered(Ranked(s[..|s| - 1]), s[|s| - 1]);
    }
  }

  /** The rows of `s` whose keys equal those of `k`, in order. */
  function Tied(s: seq<Row>, k: Row): seq<Row>
  {
    if s == [] then []
    else Tied(s[..|s| - 1], k) + (if SameKeys(s[|s| - 1], k) then [s[|s| - 1]] else [])
  }

  lemma {:induction false} TiedAppend(s: seq<Row>, t: seq<Row>, k: Row)
    ensures Tied(s + t, k) == Tied(s, k) + Tied(t, k)
    decreases |t|
  {
    if t == [] {
      assert s + t == s;
    } else {
      var t', y := t[..|t| - 1], t[|t| - 1];
      assert (s + t)[..|s + t| - 1] == s + t';
      assert (s + t)[|s + t| - 1] == y;
      TiedAppend(s, t', k);
    }
  }

  lemma TiedSingle(x: Row, k: Row)
    ensures Tied([x], k) == if SameKeys(x, k) then [x] else []
  {
    assert [x][..0] == [];
  }

  lemma {:induction false} InsertStable(s: seq<Row>, x: Row, k: Row)
    ensures Tied(Insert(s, x), k) == Tied(s, k) + Tied([x], k)
  {
    if s == [] || Compare(x, s[|s| - 1]) >= 0 {
      TiedAppend(s, [x], k);
    } else {
      var init, last := s[..|s| - 1], s[|s| - 1];
      InsertStable(init, x, k);
      assert s == init + [last];
      InsertPastLast(init, last, x, k);
    }
  }

  /** A row moved in front of the last row: at most one of the two is tied
      with `k`, so the tied rows keep their order. */
  lemma InsertPastLast(init: seq<Row>, last: Row, x: Row, k: Row)
    requires Compare(x, last) < 0
    requires Tied(Insert(init, x), k) == Tied(init, k) + Tied([x], k)
    ensures Tied(Insert(init + [last], x), k) == Tied(init + [last], k) + Tied([x], k)
  {
    InsertBeforeLast(init, last, x);
    TiedAppend(Insert(init, x), [last], k);
    TiedAppend(init, [last], k);
    NotBothTied(x, last, k);
    var tx, tl, ti := Tied([x], k), Tied([last], k), Tied(init, k);
    if tx == [] {
      assert ti + tx + tl == ti + tl && ti + tl + tx == ti + tl;
    } else {
      assert ti + tx + tl == ti + tx && ti + tl + tx == ti + tx;
    }
  }

  /** A row that ranks strictly ahead of the last row is inserted before it. */
  lemma InsertBeforeLast(init: seq<Row>, last: Row, x: Row)
    requires Compare(x, last) < 0
    ensures Insert(init + [last], x) == Insert(init, x) + [last]
  {
    var s := init + [last];
    assert s[..|s| - 1] == init && s[|s| - 1] == last;
  }

  /** Two rows one of which ranks strictly ahead of the other are not both
      tied with the same keys. */
  lemma NotBothTied(x: Row, y: Row, k: Row)
    requires Compare(x, y) < 0
    ensures Tied([x], k) == [] || Tied([y], k) == []
  {
    CompareIsLexicographic(x, y);
    TiedSingle(x, k);
    TiedSingle(y, k);
  }

  /** The sort is stable: the rows tied with any given keys appear in the
      ranked table in the order they had in the input. */
  lemma {:induction false} RankedStable(s: seq<Row>, k: Row)
    ensures Tied(Ranked(s), k) == Tied(s, k)
  {
    if s != [] {
      var init, last := s[..|s| - 1], s[|s| - 1];
      RankedStable(init, k);
      InsertStable(Ranked(init), last, k);
      TiedSingle(last, k);
    }
  }

  /** Two teams level on points and wins: the one with the better goal
      difference ranks first, whichever order they come in. */
  lemma GoalDifferenceBreaksTie(a: Row, b: Row)
    requires a.stats.points == b.stats.points && a.stats.wins == b.stats.wins
    requires b.stats.goalDifference > a.stats.goalDifference
    ensures Ranked([a, b]) == [b, a] && Ranked([b, a]) == [b, a]
  {
    assert [a, b][..1] == [a] && [b, a][..1] == [b];
    assert [a][..0] == [] && [b][..0] == [];
    assert Ranked([a]) == [a] && Ranked([b]) == [b];
    assert Compare(b, a) < 0 && Compare(a, b) > 0;
    assert Insert([a], b) == Insert([], b) + [a] == [b, a];
    assert Insert([b], a) == [b, a];
  }

  /** Level on points, wins and goal difference, one red card fewer outweighs
      up to two more yellow cards: 15 per red against 5 per yellow. */
  lemma CardsBreakTie(a: Row, b: Row)
    requires a.stats.points == b.stats.points && a.stats.wins == b.stats.wins
    requires a.stats.goalDifference == b.stats.goalDifference
    requires b.stats.redCards < a.stats.redCards && b.stats.yellowCards <= a.stats.yellowCards + 2
    ensures Ranked([a, b]) == [b, a] && Ranked([b, a]) == [b, a]
  {
    assert [a, b][..1] == [a] && [b, a][..1] == [b];
    assert [a][..0] == [] && [b][..0] == [];
    assert Ranked([a]) == Insert([], a) == [a];
    assert Ranked([b]) == Insert([], b) == [b];
    assert DisciplinaryScore(b.stats) < DisciplinaryScore(a.stats);
    assert Compare(b, a) < 0 && Compare(a, b) > 0;
    assert Insert([a], b) == Insert([], b) + [a] == [b, a];
    assert Insert([b], a) == [b, a];
  }

  /** One step of the insertion: when `x` ranks strictly ahead of the row
      before position `j`, inserting into the first `j` rows is inserting
      into the first `j - 1` and putting that row back after them. */
  lemma InsertStep(p: seq<Row>, j: int, x: Row)
    requires 0 < j <= |p| && Compare(x, p[j - 1]) < 0
    ensures Insert(p[..j], x) + p[j..] == Insert(p[..j - 1], x) + p[j - 1..]
  {
    assert p[..j][..j - 1] == p[..j - 1];
    assert p[j - 1..] == [p[j - 1]] + p[j..];
  }

  /** A row placed after every row it does not rank strictly ahead of. */
  lemma InsertStop(p: seq<Row>, j: int, x: Row)
    requires 0 <= j <= |p| && (j == 0 || Compare(x, p[j - 1]) >= 0)
    ensures Insert(p[..j], x) + p[j..] == p[..j] + [x] + p[j..]
  {
  }

  /** Copying the row before the gap into the gap moves the gap one place
      to the left. */
  lemma ShiftGap(p: seq<Row>, j: int, y: Row, rest: seq<Row>)
    requires 0 < j <= |p|
    ensures var s := p[..j] + [y] + p[j..] + rest;
      s[j - 1] == p[j - 1] && s[j := p[j - 1]] == p[..j - 1] + [p[j - 1]] + p[j - 1..] + rest
  {
    var s := p[..j] + [y] + p[j..] + rest;
    var t := p[..j - 1] + [p[j - 1]] + p[j - 1..] + rest;
    assert |s[j := p[j - 1]]| == |t|;
    forall k | 0 <= k < |t| ensures s[j := p[j - 1]][k] == t[k] {
      if k < j - 1 {
      } else if k == j - 1 || k == j {
      } else if k <= |p| {
        assert s[k] == p[k - 1] && t[k] == p[k - 1];
      } else {
        assert s[k] == rest[k - |p| - 1] && t[k] == rest[k - |p| - 1];
      }
    }
  }

  /** Filling the gap with `x` leaves the prefix with `x` inserted, then the rest. */
  lemma FillGap(p: seq<Row>, j: int, y: Row, x: Row, rest: seq<Row>)
    requires 0 <= j <= |p|
    ensures var s := (p[..j] + [y] + p[j..] + rest)[j := x];
      s[..|p| + 1] == p[..j] + [x] + p[j..] && s[|p| + 1..] == rest
  {
    var s := p[..j] + [y] + p[j..] + rest;
    assert s[j := x] == (p[..j] + [x] + p[j..]) + rest;
  }

  /** The inner loop of the insertion sort: moves `a[i]` back past the rows
      it ranks strictly ahead of. */
  method InsertAt(a: array<Row>, i: int)
    requires 0 <= i < a.Length
    modifies a
    ensures a[..i + 1] == Insert(old(a[..i]), old(a[i]))
    ensures a[i + 1..] == old(a[i + 1..])
  {
    ghost var prefix, rest := a[..i], a[i + 1..];
    var x := a[i];
    var j := i;
    assert prefix[..j] == prefix && prefix[j..] == [];
    assert a[..] == prefix[..j] + [a[j]] + prefix[j..] + rest;
    while j > 0 && Compare(x, a[j - 1]) < 0
      invariant 0 <= j <= i
      invariant a[..] == prefix[..j] + [a[j]] + prefix[j..] + rest
      invariant Insert(prefix, x) == Insert(prefix[..j], x) + prefix[j..]
    {
      ghost var before := a[..];
      ShiftGap(prefix, j, a[j], rest);
      InsertStep(prefix, j, x);
      a[j] := a[j - 1];
      assert a[..] == before[j := before[j - 1]];
      j := j - 1;
    }
    ghost var before := a[..];
    FillGap(prefix, j, a[j], x, rest);
    InsertStop(prefix, j, x);
    a[j] := x;
    assert a[..] == before[j := x];
    assert |prefix| == i;
    assert a[..i + 1] == a[..][..i + 1] == prefix[..j] + [x] + prefix[j..];
    assert a[i + 1..] == a[..][i + 1..] == rest;
  }

  /** `sortTeams(teams)`: sorts the array of rows in place. */
  method SortTeams(a: array<Row>)
    modifies a
    ensures a[..] == Ranked(old(a[..]))
  {
    ghost var input := a[..];
    var i := 0;
    while i < a.Length
      invariant 0 <= i <= a.Length
      invariant a[..i] == Ranked(input[..i])
      invariant a[i..] == input[i..]
    {
      assert input[..i + 1][..i] == input[..i];
      InsertAt(a, i);
      i := i + 1;
    }
    assert input[..i] == input;
  }
}
