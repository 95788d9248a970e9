/**
 A climber's logbook: either one row per logged completion ("Showing Sends")
 or one row per catalog benchmark with a done flag ("Showing All"), narrowed
 by an exact grade filter and ordered most recent first.
 */
module Logbook {
  import opened Domain
  import opened StableSort

  datatype ViewMode = CompletedView | AllView

  /** One displayed line. `date` and `rating` are JavaScript's `null` in the
      catalog view. */
  datatype Row = Row(name: string, grade: string, date: Option<int>, rating: Option<int>, isDone: bool)

  /** The name shown when a completion's benchmark is gone (or nameless). */
  const UnknownName: string := "Unknown"

  function BenchmarkId(b: Benchmark): string { b.id }

  /** The first benchmark with the id. */
  function FindBenchmark(benchmarks: seq<Benchmark>, id: string): Option<Benchmark> {
    Find(benchmarks, id, BenchmarkId)
  }

  /** The row for one completion. An empty name is falsy in `App.tsx`, so it
      falls back to the sentinel as a missing benchmark does. */
  function SendRow(benchmarks: seq<Benchmark>, c: Completion): (row: Row)
    ensures row.isDone && row.date == Some(c.date) && row.rating == Some(c.rating)
    ensures (forall i :: 0 <= i < |benchmarks| ==> benchmarks[i].id != c.benchmarkId)
              ==> row.name == UnknownName && row.grade == UnknownGrade
    ensures forall i :: 0 <= i < |benchmarks| && benchmarks[i].id == c.benchmarkId
              && (forall j :: 0 <= j < i ==> benchmarks[j].id != c.benchmarkId)
              ==> row.grade == benchmarks[i].grade.Label()
                  && row.name == (if benchmarks[i].name == "" then UnknownName else benchmarks[i].name)
  {
    var bench := FindBenchmark(benchmarks, c.benchmarkId);
    Row(
      if bench.Some? && bench.value.name != "" then bench.value.name else UnknownName,
      if bench.Some? then bench.value.grade.Label() else UnknownGrade,
      Some(c.date),
      Some(c.rating),
      true)
  }

  /** One row per completion, duplicates kept, in logging order. */
  function SendRows(benchmarks: seq<Benchmark>, cs: seq<Completion>): (rows: seq<Row>)
    ensures |rows| == |cs|
    ensures forall i :: 0 <= i < |cs| ==> rows[i] == SendRow(benchmarks, cs[i])
  {
    if cs == [] then [] else [SendRow(benchmarks, cs[0])] + SendRows(benchmarks, cs[1..])
  }

  /** One row per benchmark, in catalog order, done iff its id was sent. */
  function CatalogRows(benchmarks: seq<Benchmark>, done: set<string>): (rows: seq<Row>)
    ensures |rows| == |benchmarks|
    ensures forall i :: 0 <= i < |benchmarks| ==>
      && rows[i].name == benchmarks[i].name
      && rows[i].grade == benchmarks[i].grade.Label()
      && rows[i].date == None && rows[i].rating == None
      && (rows[i].isDone <==> benchmarks[i].id in done)
  {
    if benchmarks == [] then []
    else
      var b := benchmarks[0];
      [Row(b.name, b.grade.Label(), None, None, b.id in done)] + CatalogRows(benchmarks[1..], done)
  }

  /** The exact-match grade filter; "All" keeps everything. */
  function FilterByGrade(rows: seq<Row>, filterGrade: string): (out: seq<Row>)
    ensures |out| <= |rows|
    ensures filterGrade == AllGrades ==> out == rows
    ensures filterGrade != AllGrades ==>
      forall r :: r in out <==> r in rows && r.grade == filterGrade
  {
    if filterGrade == AllGrades then rows
    else
      KeepGradeMembers(rows, filterGrade);
      KeepGrade(rows, filterGrade)
  }

  /** The rows of grade `g`, in order. */
  function KeepGrade(rows: seq<Row>, g: string): seq<Row> {
    if rows == [] then []
    else (if rows[0].grade == g then [rows[0]] else []) + KeepGrade(rows[1..], g)
  }

  lemma {:induction false} KeepGradeMembers(rows: seq<Row>, g: string)
    ensures |KeepGrade(rows, g)| <= |rows|
    ensures forall r :: r in KeepGrade(rows, g) <==> r in rows && r.grade == g
  {
    if rows != [] {
      KeepGradeMembers(rows[1..], g);
      assert rows == [rows[0]] + rows[1..];
    }
  }

  lemma {:induction false} KeepGradeConcat(a: seq<Row>, b: seq<Row>, g: string)
    ensures KeepGrade(a + b, g) == KeepGrade(a, g) + KeepGrade(b, g)
  {
    if a == [] {
      assert a + b == b;
    } else {
      var ab := a + b;
      assert ab[0] == a[0];
      assert ab[1..] == a[1..] + b;
      KeepGradeConcat(a[1..], b, g);
      var head := if a[0].grade == g then [a[0]] else [];
      calc {
        KeepGrade(ab, g);
        head + KeepGrade(a[1..] + b, g);
        head + (KeepGrade(a[1..], g) + KeepGrade(b, g));
        (head + KeepGrade(a[1..], g)) + KeepGrade(b, g);
        KeepGrade(a, g) + KeepGrade(b, g);
      }
    }
  }

  /** The filter keeps order: filtering a concatenation filters each part. */
  lemma FilterByGradeConcat(a: seq<Row>, b: seq<Row>, filterGrade: string)
    ensures FilterByGrade(a + b, filterGrade) == FilterByGrade(a, filterGrade) + FilterByGrade(b, filterGrade)
  {
    if filterGrade != AllGrades {
      KeepGradeConcat(a, b, filterGrade);
    }
  }

  /** The app's comparator, `new Date(b.date) - new Date(a.date)` when both
      dates are present and 0 otherwise. */
  function DateComparator(a: Row, b: Row): int {
    if a.date.Some? && b.date.Some? then b.date.value - a.date.value else 0
  }

  /** The key the stable sort orders by, descending. */
  function SortKey(r: Row): int {
    match r.date
    case Some(d) => d
    case None => 0
  }

  /** On the lists the logbook builds, where either every row has a date or
      none has, sorting descending by `SortKey` is sorting by the app's
      comparator: it says "before" exactly when the key is larger, and says
      "equal" for every pair of undated rows. */
  lemma SortKeyMatchesComparator(a: Row, b: Row)
    ensures a.date.Some? && b.date.Some? ==>
      (DateComparator(a, b) < 0 <==> SortKey(a) > SortKey(b))
      && (DateComparator(a, b) == 0 <==> SortKey(a) == SortKey(b))
    ensures a.date.None? && b.date.None? ==> DateComparator(a, b) == 0 && SortKey(a) == SortKey(b)
  {
  }

  /** The logbook the view shows for `selectedUserId`. */
  function DisplayList(people: seq<Person>, selectedUserId: string, benchmarks: seq<Benchmark>,
                       mode: ViewMode, filterGrade: string): (out: seq<Row>)
    ensures FindPerson(people, selectedUserId).None? ==> out == []
    ensures filterGrade != AllGrades ==> forall i :: 0 <= i < |out| ==> out[i].grade == filterGrade
    ensures mode == AllView ==>
      && |out| <= |benchmarks|
      && forall i :: 0 <= i < |out| ==> out[i].date == None && out[i].rating == None
    ensures mode == CompletedView ==>
      && (forall i :: 0 <= i < |out| ==> out[i].isDone && out[i].date.Some? && out[i].rating.Some?)
      && (forall i, j :: 0 <= i < j < |out| ==> out[i].date.value >= out[j].date.value)
  {
    match FindPerson(people, selectedUserId)
    case None => []
    case Some(user) =>
      var filtered := FilterByGrade(DerivedRows(benchmarks, user, mode), filterGrade);
      var out := SortDesc(filtered, SortKey);
      SortDescPermutes(filtered, SortKey);
      SortDescSorted(filtered, SortKey);
      SortedRowsProps(filtered, out, mode, filterGrade);
      out
  }

  /** The rows before filtering and sorting. */
  function DerivedRows(benchmarks: seq<Benchmark>, user: Person, mode: ViewMode): (rows: seq<Row>)
    ensures mode == AllView ==> |rows| == |benchmarks|
    ensures forall i :: 0 <= i < |rows| ==> RowFits(rows[i], mode)
  {
    match mode
    case CompletedView => SendRows(benchmarks, user.completions)
    case AllView => CatalogRows(benchmarks, CompletedIds(user.completions))
  }

  /** What every row of a view looks like: a dated, rated send, or an
      undated catalog line. */
  predicate RowFits(r: Row, mode: ViewMode) {
    match mode
    case CompletedView => r.isDone && r.date.Some? && r.rating.Some?
    case AllView => r.date == None && r.rating == None
  }

  lemma SortedRowsProps(filtered: seq<Row>, out: seq<Row>, mode: ViewMode, filterGrade: string)
    requires multiset(out) == multiset(filtered)
    requires SortedDesc(out, SortKey)
    requires forall i :: 0 <= i < |filtered| ==> RowFits(filtered[i], mode)
    requires filterGrade != AllGrades ==> forall i :: 0 <= i < |filtered| ==> filtered[i].grade == filterGrade
    ensures forall i :: 0 <= i < |out| ==> RowFits(out[i], mode)
    ensures filterGrade != AllGrades ==> forall i :: 0 <= i < |out| ==> out[i].grade == filterGrade
    ensures mode == CompletedView ==>
      forall i, j :: 0 <= i < j < |out| ==>
        out[i].date.Some? && out[j].date.Some? && out[i].date.value >= out[j].date.value
  {
    forall i | 0 <= i < |out|
      ensures RowFits(out[i], mode)
      ensures filterGrade != AllGrades ==> out[i].grade == filterGrade
    {
      assert out[i] in multiset(filtered);
    }
    if mode == CompletedView {
      forall i, j | 0 <= i < j < |out| ensures out[i].date.value >= out[j].date.value {
        assert RowFits(out[i], mode) && RowFits(out[j], mode);
        assert SortKey(out[i]) >= SortKey(out[j]);
      }
    }
  }

  /** No climber selected (or an id nobody has): nothing to show. */
  lemma NoClimberNoRows(people: seq<Person>, benchmarks: seq<Benchmark>, mode: ViewMode, filterGrade: string)
    requires forall i :: 0 <= i < |people| ==> people[i].id != ""
    ensures DisplayList(people, "", benchmarks, mode, filterGrade) == []
  {
  }

  /** "Showing Sends": the list is a reordering of the filtered completion
      rows, so with no filter there is exactly one row per completion,
      duplicates included; rows of the same date stay in logging order. */
  lemma CompletedViewContents(people: seq<Person>, user: Person, benchmarks: seq<Benchmark>,
                              filterGrade: string, day: int)
    requires FindPerson(people, user.id) == Some(user)
    ensures var out := DisplayList(people, user.id, benchmarks, CompletedView, filterGrade);
      var rows := FilterByGrade(SendRows(benchmarks, user.completions), filterGrade);
      && multiset(out) == multiset(rows)
      && KeyClass(out, SortKey, day) == KeyClass(rows, SortKey, day)
  {
    var rows := FilterByGrade(SendRows(benchmarks, user.completions), filterGrade);
    SortDescPermutes(rows, SortKey);
    SortDescStable(rows, SortKey, day);
  }

  /** "Showing All": the undated rows are never reordered, so the list is the
      filtered catalog in catalog order. */
  lemma AllViewKeepsCatalogOrder(people: seq<Person>, user: Person, benchmarks: seq<Benchmark>,
                                 filterGrade: string)
    requires FindPerson(people, user.id) == Some(user)
    ensures DisplayList(people, user.id, benchmarks, AllView, filterGrade)
         == FilterByGrade(CatalogRows(benchmarks, CompletedIds(user.completions)), filterGrade)
  {
    var rows := FilterByGrade(CatalogRows(benchmarks, CompletedIds(user.completions)), filterGrade);
    assert forall i :: 0 <= i < |rows| ==> rows[i].date == None;
    assert SortedDesc(rows, SortKey);
    SortDescOfSorted(rows, SortKey);
  }

  /** Two sends of one benchmark give two rows under "Showing Sends", the
      later first. */
  lemma DuplicateSendsExample()
    ensures var x := Person("x", "X", "blue", [Completion("b1", 4, 20, G6C), Completion("b1", 5, 21, G6C)]);
      DisplayList([x], "x", [Benchmark("b1", "Crimpy", G6C)], CompletedView, AllGrades)
        == [Row("Crimpy", "6C", Some(21), Some(5), true), Row("Crimpy", "6C", Some(20), Some(4), true)]
  {
    var b := Benchmark("b1", "Crimpy", G6C);
    var c1 := Completion("b1", 4, 20, G6C);
    var c2 := Completion("b1", 5, 21, G6C);
    var x := Person("x", "X", "blue", [c1, c2]);
    var r1 := Row("Crimpy", "6C", Some(20), Some(4), true);
    var r2 := Row("Crimpy", "6C", Some(21), Some(5), true);
    assert FindPerson([x], "x") == Some(x);
    assert FindBenchmark([b], "b1") == Some(b);
    assert SendRow([b], c1) == r1;
    assert SendRow([b], c2) == r2;
    assert DerivedRows([b], x, CompletedView) == [r1, r2];
    assert [r1, r2][1..] == [r2];
    assert SortDesc([r2], SortKey) == [r2];
    assert Insert(r1, [r2], SortKey) == [r2, r1];
  }

  /** The same climber under "Showing All": one done row for the benchmark. */
  lemma DuplicateSendsCatalogExample()
    ensures var x := Person("x", "X", "blue", [Completion("b1", 4, 20, G6C), Completion("b1", 5, 21, G6C)]);
      DisplayList([x], "x", [Benchmark("b1", "Crimpy", G6C)], AllView, AllGrades)
        == [Row("Crimpy", "6C", None, None, true)]
  {
    var b := Benchmark("b1", "Crimpy", G6C);
    var x := Person("x", "X", "blue", [Completion("b1", 4, 20, G6C), Completion("b1", 5, 21, G6C)]);
    assert FindPerson([x], "x") == Some(x);
    assert x.completions[0].benchmarkId == "b1";
    assert "b1" in CompletedIds(x.completions);
    AllViewKeepsCatalogOrder([x], x, [b], AllGrades);
  }
}
