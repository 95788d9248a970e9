/**
 The race leaderboard: for the selected grade, how many of that grade's
 benchmarks each climber has sent, as a count and a percentage, with the
 climbers ranked by count.
 */
module Leaderboard {
  import opened Domain
  import opened StableSort

  /** The grade the leaderboard opens on, and the grades it offers. */
  const DefaultGrade: string := "6B+"
  const AvailableGrades: seq<string> := ["6B+", "6C", "6C+", "7A", "7A+"]

  /** The picker opens on its first grade, and every grade it offers is a
      real grade label, so a race can have targets. */
  lemma OfferedGrades()
    ensures DefaultGrade == AvailableGrades[0]
    ensures forall i :: 0 <= i < |AvailableGrades| ==> exists g: Grade :: g.Label() == AvailableGrades[i]
  {
    assert G6BPlus.Label() == AvailableGrades[0];
    assert G6C.Label() == AvailableGrades[1];
    assert G6CPlus.Label() == AvailableGrades[2];
    assert G7A.Label() == AvailableGrades[3];
    assert G7APlus.Label() == AvailableGrades[4];
  }

  /** A climber with their standing in the current race. */
  datatype Racer = Racer(person: Person, score: nat, percent: real)

  datatype RaceData = RaceData(total: nat, racers: seq<Racer>)

  /** The benchmarks of the selected grade, in catalog order. */
  function TargetBenchmarks(benchmarks: seq<Benchmark>, grade: string): (r: seq<Benchmark>)
    ensures |r| <= |benchmarks|
    ensures forall b :: b in r <==> b in benchmarks && b.grade.Label() == grade
    ensures benchmarks == [] ==> r == []
    ensures |benchmarks| == 1 ==>
      r == (if benchmarks[0].grade.Label() == grade then benchmarks else [])
  {
    if benchmarks == [] then []
    else
      (if benchmarks[0].grade.Label() == grade then [benchmarks[0]] else [])
        + TargetBenchmarks(benchmarks[1..], grade)
  }

  /** The filter keeps catalog order: the targets of a concatenation are the
      targets of each part, one after the other. With the one-benchmark case
      above this fixes the targets, and so `total`, exactly. */
  lemma {:induction false} TargetBenchmarksConcat(a: seq<Benchmark>, b: seq<Benchmark>, grade: string)
    ensures TargetBenchmarks(a + b, grade) == TargetBenchmarks(a, grade) + TargetBenchmarks(b, grade)
  {
    if a == [] {
      assert a + b == b;
    } else {
      var ab := a + b;
      assert ab[0] == a[0];
      assert ab[1..] == a[1..] + b;
      TargetBenchmarksConcat(a[1..], b, grade);
      var head := if a[0].grade.Label() == grade then [a[0]] else [];
      calc {
        TargetBenchmarks(ab, grade);
        head + TargetBenchmarks(a[1..] + b, grade);
        head + (TargetBenchmarks(a[1..], grade) + TargetBenchmarks(b, grade));
        (head + TargetBenchmarks(a[1..], grade)) + TargetBenchmarks(b, grade);
        TargetBenchmarks(a, grade) + TargetBenchmarks(b, grade);
      }
    }
  }

  lemma {:induction false} NoTargetsIffNoneOfGrade(benchmarks: seq<Benchmark>, grade: string)
    ensures |TargetBenchmarks(benchmarks, grade)| == 0 <==>
      forall i :: 0 <= i < |benchmarks| ==> benchmarks[i].grade.Label() != grade
  {
    if benchmarks != [] {
      NoTargetsIffNoneOfGrade(benchmarks[1..], grade);
      assert forall i :: 1 <= i < |benchmarks| ==> benchmarks[i] == benchmarks[1..][i - 1];
    }
  }

  /** How many of `targets` have their id in `done`. */
  function CountDone(targets: seq<Benchmark>, done: set<string>): (n: nat)
    ensures n <= |targets|
    ensures n == |targets| <==> forall i :: 0 <= i < |targets| ==> targets[i].id in done
    ensures n == 0 <==> forall i :: 0 <= i < |targets| ==> targets[i].id !in done
  {
    if targets == [] then 0
    else
      (if targets[0].id in done then 1 else 0) + CountDone(targets[1..], done)
  }

  /** A climber's score: the targets whose id is among their completions. */
  function Score(targets: seq<Benchmark>, p: Person): nat {
    CountDone(targets, CompletedIds(p.completions))
  }

  /** The progress-bar width; zero, not a division, when there are no targets. */
  function Percent(score: nat, total: nat): (p: real)
    ensures total == 0 ==> p == 0.0
    ensures 0.0 <= p
    ensures score <= total ==> p <= 100.0
    ensures total > 0 ==> (p == 100.0 <==> score == total)
    ensures total > 0 ==> p * (total as real) == 100.0 * (score as real)
  {
    if total == 0 then 0.0
    else
      var q := score as real / total as real;
      assert q * (total as real) == score as real;
      assert score <= total ==> q <= 1.0;
      assert q == 1.0 <==> score == total;
      q * 100.0
  }

  function ScoreRacer(targets: seq<Benchmark>, p: Person): Racer {
    var score := Score(targets, p);
    Racer(p, score, Percent(score, |targets|))
  }

  /** Every climber with their standing, in input order (the `people.map`). */
  function ScoreAll(targets: seq<Benchmark>, people: seq<Person>): seq<Racer> {
    seq(|people|, i requires 0 <= i < |people| => ScoreRacer(targets, people[i]))
  }

  /** The sort key: JavaScript's comparator `b.score - a.score` orders by it, descending. */
  function RacerScore(r: Racer): int {
    r.score
  }

  /** The leaderboard for `selectedGrade`: the number of target benchmarks and
      the climbers ranked by score, ties kept in input order. */
  function RaceStandings(people: seq<Person>, benchmarks: seq<Benchmark>, selectedGrade: string)
    : (d: RaceData)
    ensures d.total == |TargetBenchmarks(benchmarks, selectedGrade)|
    ensures d.total == 0 <==>
      forall i :: 0 <= i < |benchmarks| ==> benchmarks[i].grade.Label() != selectedGrade
    ensures |d.racers| == |people|
    ensures forall i, j :: 0 <= i < j < |d.racers| ==> d.racers[i].score >= d.racers[j].score
    ensures forall i :: 0 <= i < |d.racers| ==>
      && d.racers[i].score <= d.total
      && (d.total == 0 ==> d.racers[i].percent == 0.0)
      && 0.0 <= d.racers[i].percent <= 100.0
      && (d.total > 0 ==> (d.racers[i].percent == 100.0 <==> d.racers[i].score == d.total))
  {
    var targets := TargetBenchmarks(benchmarks, selectedGrade);
    NoTargetsIffNoneOfGrade(benchmarks, selectedGrade);
    var scored := ScoreAll(targets, people);
    var racers := SortDesc(scored, RacerScore);
    SortDescPermutes(scored, RacerScore);
    SortDescSorted(scored, RacerScore);
    PermutedAreScored(targets, scored, racers);
    ScoredBounds(targets, racers);
    RaceData(|targets|, racers)
  }

  /** A reordering of scored climbers is still a list of scored climbers. */
  lemma PermutedAreScored(targets: seq<Benchmark>, scored: seq<Racer>, racers: seq<Racer>)
    requires multiset(racers) == multiset(scored)
    requires forall i :: 0 <= i < |scored| ==> scored[i] == ScoreRacer(targets, scored[i].person)
    ensures forall i :: 0 <= i < |racers| ==> racers[i] == ScoreRacer(targets, racers[i].person)
  {
    forall i | 0 <= i < |racers|
      ensures racers[i] == ScoreRacer(targets, racers[i].person)
    {
      assert racers[i] in multiset(scored);
    }
  }

  lemma ScoredBounds(targets: seq<Benchmark>, rs: seq<Racer>)
    requires forall i :: 0 <= i < |rs| ==> rs[i] == ScoreRacer(targets, rs[i].person)
    ensures forall i :: 0 <= i < |rs| ==>
      && rs[i].score <= |targets|
      && (|targets| == 0 ==> rs[i].percent == 0.0)
      && 0.0 <= rs[i].percent <= 100.0
      && (|targets| > 0 ==> (rs[i].percent == 100.0 <==> rs[i].score == |targets|))
  {
  }

  /** The climbers behind a list of racers. */
  function Persons(rs: seq<Racer>): seq<Person> {
    if rs == [] then [] else [rs[0].person] + Persons(rs[1..])
  }

  /** The climbers whose score is `v`, in input order. */
  function PeopleWithScore(targets: seq<Benchmark>, people: seq<Person>, v: int): (ps: seq<Person>)
    ensures forall i :: 0 <= i < |ps| ==> Score(targets, ps[i]) == v
  {
    if people == [] then []
    else
      (if Score(targets, people[0]) == v then [people[0]] else [])
        + PeopleWithScore(targets, people[1..], v)
  }

  lemma PersonsCons(x: Racer, s: seq<Racer>)
    ensures Persons([x] + s) == [x.person] + Persons(s)
  {
    assert ([x] + s)[1..] == s;
  }

  lemma {:induction false} PersonsConcat(a: seq<Racer>, b: seq<Racer>)
    ensures Persons(a + b) == Persons(a) + Persons(b)
  {
    if a == [] {
      assert a + b == b;
    } else {
      assert a + b == [a[0]] + (a[1..] + b);
      PersonsCons(a[0], a[1..] + b);
      PersonsConcat(a[1..], b);
    }
  }

  /** The climbers behind the scored list are the input climbers. */
  lemma {:induction false} PersonsOfScoreAll(targets: seq<Benchmark>, people: seq<Person>)
    ensures Persons(ScoreAll(targets, people)) == people
  {
    if people != [] {
      var rs := ScoreAll(targets, people);
      assert rs == [rs[0]] + ScoreAll(targets, people[1..]);
      PersonsCons(rs[0], ScoreAll(targets, people[1..]));
      PersonsOfScoreAll(targets, people[1..]);
    }
  }

  /** Inserting a racer adds its climber to the multiset of climbers. */
  lemma {:induction false} PersonsInsert(x: Racer, s: seq<Racer>)
    ensures multiset(Persons(Insert(x, s, RacerScore))) == multiset(Persons(s)) + multiset{x.person}
  {
    if s == [] || RacerScore(x) >= RacerScore(s[0]) {
      PersonsCons(x, s);
    } else {
      var rest := Insert(x, s[1..], RacerScore);
      assert Insert(x, s, RacerScore) == [s[0]] + rest;
      PersonsInsert(x, s[1..]);
      PersonsCons(s[0], rest);
      PersonsUncons(s);
      calc {
        multiset(Persons(Insert(x, s, RacerScore)));
        multiset([s[0].person] + Persons(rest));
        multiset{s[0].person} + multiset(Persons(rest));
        multiset{s[0].person} + (multiset(Persons(s[1..])) + multiset{x.person});
        multiset([s[0].person] + Persons(s[1..])) + multiset{x.person};
        multiset(Persons(s)) + multiset{x.person};
      }
    }
  }

  /** Sorting racers keeps the multiset of their climbers. */
  lemma {:induction false} PersonsSortDesc(s: seq<Racer>)
    ensures multiset(Persons(SortDesc(s, RacerScore))) == multiset(Persons(s))
  {
    if s != [] {
      var rest := SortDesc(s[1..], RacerScore);
      PersonsSortDesc(s[1..]);
      PersonsInsert(s[0], rest);
      PersonsUncons(s);
      calc {
        multiset(Persons(SortDesc(s, RacerScore)));
        multiset(Persons(Insert(s[0], rest, RacerScore)));
        multiset(Persons(rest)) + multiset{s[0].person};
        multiset(Persons(s[1..])) + multiset{s[0].person};
        multiset([s[0].person] + Persons(s[1..]));
        multiset(Persons(s));
      }
    }
  }

  lemma PersonsUncons(s: seq<Racer>)
    requires s != []
    ensures Persons(s) == [s[0].person] + Persons(s[1..])
  {
  }

  /** The ranking is a permutation of the climbers. */
  lemma RankingIsPermutation(people: seq<Person>, benchmarks: seq<Benchmark>, selectedGrade: string)
    ensures multiset(Persons(RaceStandings(people, benchmarks, selectedGrade).racers)) == multiset(people)
  {
    var targets := TargetBenchmarks(benchmarks, selectedGrade);
    var scored := ScoreAll(targets, people);
    PersonsSortDesc(scored);
    PersonsOfScoreAll(targets, people);
  }

  /** Every racer carries its own climber's score and percentage. */
  lemma RacersCarryTheirScore(people: seq<Person>, benchmarks: seq<Benchmark>, selectedGrade: string)
    ensures var d := RaceStandings(people, benchmarks, selectedGrade);
      forall i :: 0 <= i < |d.racers| ==>
        && d.racers[i].score == Score(TargetBenchmarks(benchmarks, selectedGrade), d.racers[i].person)
        && d.racers[i].percent == Percent(d.racers[i].score, d.total)
  {
    var targets := TargetBenchmarks(benchmarks, selectedGrade);
    var scored := ScoreAll(targets, people);
    SortDescPermutes(scored, RacerScore);
    PermutedAreScored(targets, scored, SortDesc(scored, RacerScore));
  }

  lemma {:induction false} ScoreAllKeyClass(targets: seq<Benchmark>, people: seq<Person>, v: int)
    ensures Persons(KeyClass(ScoreAll(targets, people), RacerScore, v)) == PeopleWithScore(targets, people, v)
  {
    if people != [] {
      var rs := ScoreAll(targets, people);
      assert rs == [rs[0]] + ScoreAll(targets, people[1..]);
      ScoreAllKeyClass(targets, people[1..], v);
      assert rs[1..] == ScoreAll(targets, people[1..]);
      var head := KeyClass([rs[0]], RacerScore, v);
      var tail := KeyClass(rs[1..], RacerScore, v);
      PersonsConcat(head, tail);
    }
  }

  /** Stability: the climbers of any one score appear in the ranking in their
      input order. */
  lemma RankingIsStable(people: seq<Person>, benchmarks: seq<Benchmark>, selectedGrade: string, v: int)
    ensures Persons(KeyClass(RaceStandings(people, benchmarks, selectedGrade).racers, RacerScore, v))
         == PeopleWithScore(TargetBenchmarks(benchmarks, selectedGrade), people, v)
  {
    var targets := TargetBenchmarks(benchmarks, selectedGrade);
    SortDescStable(ScoreAll(targets, people), RacerScore, v);
    ScoreAllKeyClass(targets, people, v);
  }

  /** A benchmark counts at most once: duplicating or reordering a climber's
      completions does not change their score. */
  lemma ScoreIgnoresDuplicatesAndOrder(targets: seq<Benchmark>, p: Person, q: Person)
    requires forall i :: 0 <= i < |p.completions| ==> p.completions[i] in q.completions
    requires forall i :: 0 <= i < |q.completions| ==> q.completions[i] in p.completions
    ensures Score(targets, p) == Score(targets, q)
  {
    assert CompletedIds(p.completions) == CompletedIds(q.completions);
  }

  /** The targets' ids. */
  function Ids(bs: seq<Benchmark>): (ids: set<string>)
    ensures forall b :: b in bs ==> b.id in ids
  {
    if bs == [] then {} else {bs[0].id} + Ids(bs[1..])
  }

  predicate DistinctIds(bs: seq<Benchmark>) {
    forall i, j :: 0 <= i < j < |bs| ==> bs[i].id != bs[j].id
  }

  /** With distinct benchmark ids (store document ids are), the score is the
      size of the intersection of the target-id set and the completed-id set. */
  lemma {:induction false} CountDoneIsIntersection(targets: seq<Benchmark>, done: set<string>)
    requires DistinctIds(targets)
    ensures CountDone(targets, done) == |Ids(targets) * done|
  {
    if targets != [] {
      var rest := targets[1..];
      FirstIdIsNew(targets);
      CountDoneIsIntersection(rest, done);
      var restDone := Ids(rest) * done;
      if targets[0].id in done {
        assert Ids(targets) * done == {targets[0].id} + restDone;
      } else {
        assert Ids(targets) * done == restDone;
      }
    }
  }

  lemma FirstIdIsNew(targets: seq<Benchmark>)
    requires targets != [] && DistinctIds(targets)
    ensures DistinctIds(targets[1..])
    ensures targets[0].id !in Ids(targets[1..])
    ensures Ids(targets) == {targets[0].id} + Ids(targets[1..])
  {
    var rest := targets[1..];
    forall i | 0 <= i < |rest| ensures rest[i].id != targets[0].id {
      assert rest[i] == targets[i + 1];
    }
    IdNotAmong(rest, targets[0].id);
  }

  lemma {:induction false} IdNotAmong(bs: seq<Benchmark>, id: string)
    requires forall i :: 0 <= i < |bs| ==> bs[i].id != id
    ensures id !in Ids(bs)
  {
    if bs != [] {
      IdNotAmong(bs[1..], id);
    }
  }

  /** Two 6B+ benchmarks and one 7A, a climber who sent one of the 6B+:
      the 6B+ race has total 2, score 1, 50 percent. */
  lemma HalfwayExample()
    ensures var b1 := Benchmark("b1", "One", G6BPlus);
      var b2 := Benchmark("b2", "Two", G6BPlus);
      var b3 := Benchmark("b3", "Three", G7A);
      var x := Person("x", "X", "red", [Completion("b1", 3, 10, G6BPlus)]);
      var d := RaceStandings([x], [b1, b2, b3], "6B+");
      d.total == 2 && d.racers == [Racer(x, 1, 50.0)]
  {
    var b1 := Benchmark("b1", "One", G6BPlus);
    var b2 := Benchmark("b2", "Two", G6BPlus);
    var b3 := Benchmark("b3", "Three", G7A);
    var x := Person("x", "X", "red", [Completion("b1", 3, 10, G6BPlus)]);
    assert TargetBenchmarks([b3], "6B+") == [];
    assert TargetBenchmarks([b2, b3], "6B+") == [b2];
    assert TargetBenchmarks([b1, b2, b3], "6B+") == [b1, b2];
    assert x.completions[0].benchmarkId == "b1";
    var ids := CompletedIds(x.completions);
    assert "b1" in ids && "b2" !in ids;
    assert CountDone([b2], ids) == 0;
    assert CountDone([b1, b2], ids) == 1;
    assert Percent(1, 2) == 50.0;
    var r := Racer(x, 1, 50.0);
    assert ScoreAll([b1, b2], [x]) == [r];
    assert SortDesc([r], RacerScore) == [r];
  }
}
