/**
 The records the climbing-gym views share: graded benchmark routes, logged
 completions, climbers and schedule entries, plus the two lookups every view
 uses (first record with an id, the set of benchmark ids a climber has sent).
 */
module Domain {

  /** A value that may be absent (JavaScript's `undefined`/`null`). */
  datatype Option<+T> = None | Some(value: T)

  /** The fixed vocabulary of difficulty labels. */
  datatype Grade =
    | G6BPlus | G6C | G6CPlus | G7A | G7APlus | G7B | G7BPlus | G7C | G8A | G8BPlus
  {
    /** The label the store holds and the views compare against. */
    function Label(): string {
      match this
      case G6BPlus => "6B+"
      case G6C => "6C"
      case G6CPlus => "6C+"
      case G7A => "7A"
      case G7APlus => "7A+"
      case G7B => "7B"
      case G7BPlus => "7B+"
      case G7C => "7C"
      case G8A => "8A"
      case G8BPlus => "8B+"
    }
  }

  /** The logbook's "no filter" value. */
  const AllGrades: string := "All"
  /** The grade shown for a completion whose benchmark is gone. */
  const UnknownGrade: string := "?"

  /** Distinct grades have distinct labels, and no label is one of the
      logbook's reserved strings, so comparing labels compares grades. */
  lemma LabelsAreDistinct(g: Grade, h: Grade)
    ensures g.Label() == h.Label() <==> g == h
    ensures g.Label() != AllGrades && g.Label() != UnknownGrade
  {
  }

  datatype Benchmark = Benchmark(id: string, name: string, grade: Grade)

  /** A logged ascent. `date` is a calendar day number; larger is later. */
  datatype Completion = Completion(benchmarkId: string, rating: int, date: int, gradeSuggestion: Grade)

  datatype Person = Person(id: string, name: string, color: string, completions: seq<Completion>)

  datatype ScheduleEntry = ScheduleEntry(userId: string, userName: string, location: string)

  /** The distinct benchmark ids among a climber's completions. */
  function CompletedIds(cs: seq<Completion>): set<string> {
    set i | 0 <= i < |cs| :: cs[i].benchmarkId
  }

  /** The first element whose id (as `idOf` reads it) is `id`, as
      `Array.prototype.find` returns it. */
  function Find<T>(s: seq<T>, id: string, idOf: T -> string): (r: Option<T>)
    ensures r.None? <==> forall i :: 0 <= i < |s| ==> idOf(s[i]) != id
    ensures r.Some? ==>
      exists i :: 0 <= i < |s| && s[i] == r.value
        && idOf(r.value) == id && forall j :: 0 <= j < i ==> idOf(s[j]) != id
  {
    if s == [] then None
    else if idOf(s[0]) == id then Some(s[0])
    else Find(s[1..], id, idOf)
  }

  function PersonId(p: Person): string { p.id }

  /** The first person with the id. */
  function FindPerson(people: seq<Person>, id: string): Option<Person> {
    Find(people, id, PersonId)
  }
}
