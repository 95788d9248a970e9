/**
 The session calendar: the sessions planned for the selected day, and the
 join and leave actions that add the chosen climber to, or take an entry
 off, that day's list.

 The store write is modelled by the array operations the store documents:
 `arrayUnion` appends an element only if no equal element is present, and
 `arrayRemove` removes every element equal to the given one. The schedule
 map stands for the latest snapshot, so a write is seen as its effect on
 that map.
 */
module Calendar {
  import opened Domain

  /** Day string to the sessions stored for it. */
  type Schedule = map<string, seq<ScheduleEntry>>

  /** What the location field is reset to after a join. */
  const DefaultLocation: string := "Moonboard"

  /** The calendar's state: the schedule snapshot and the form fields. */
  datatype CalendarState = CalendarState(
    schedule: Schedule, selectedDate: string, selectedUser: string, location: string)

  /** The sessions for `date`; a day with no document reads as no sessions. */
  function CurrentSessions(schedule: Schedule, date: string): (s: seq<ScheduleEntry>)
    ensures date !in schedule ==> s == []
    ensures date in schedule ==> s == schedule[date]
  {
    if date in schedule then schedule[date] else []
  }

  predicate NoDuplicates(s: seq<ScheduleEntry>) {
    forall i, j :: 0 <= i < j < |s| ==> s[i] != s[j]
  }

  /** The store's `arrayUnion` with one element. */
  function ArrayUnion(s: seq<ScheduleEntry>, e: ScheduleEntry): (r: seq<ScheduleEntry>)
    ensures e in r
    ensures forall x :: x in r <==> x in s || x == e
    ensures e in s ==> r == s
    ensures e !in s ==> r == s + [e]
    ensures NoDuplicates(s) ==> NoDuplicates(r)
  {
    if e in s then s else s + [e]
  }

  /** The store's `arrayRemove` with one element. */
  function ArrayRemove(s: seq<ScheduleEntry>, e: ScheduleEntry): (r: seq<ScheduleEntry>)
    ensures |r| <= |s|
    ensures forall x :: x in r <==> x in s && x != e
    ensures NoDuplicates(s) ==> NoDuplicates(r)
    ensures s == [] ==> r == []
    ensures |s| == 1 ==> r == (if s[0] == e then [] else s)
  {
    if s == [] then []
    else if s[0] == e then ArrayRemove(s[1..], e)
    else
      var rest := ArrayRemove(s[1..], e);
      assert NoDuplicates(s) ==> s[0] !in s[1..];
      [s[0]] + rest
  }

  /** The entry a join would add, or None when the guard stops it: no climber
      chosen, an empty location, or a chosen id no climber has. */
  function JoinEntry(people: seq<Person>, selectedUser: string, location: string)
    : (r: Option<ScheduleEntry>)
    ensures r.None? <==>
      selectedUser == "" || location == ""
      || forall i :: 0 <= i < |people| ==> people[i].id != selectedUser
    ensures r.Some? ==>
      && r.value.userId == selectedUser
      && r.value.location == location
      && exists i :: 0 <= i < |people| && people[i].id == selectedUser
           && r.value.userName == people[i].name
           && forall j :: 0 <= j < i ==> people[j].id != selectedUser
  {
    if selectedUser == "" || location == "" then None
    else
      match FindPerson(people, selectedUser)
      case None => None
      case Some(user) => Some(ScheduleEntry(user.id, user.name, location))
  }

  /** The join button: add the chosen climber's entry to the selected day
      (creating the day if needed) and reset the location; keep the chosen
      climber. When the guard stops it nothing changes. */
  function HandleJoin(st: CalendarState, people: seq<Person>): (st': CalendarState)
    ensures JoinEntry(people, st.selectedUser, st.location).None? ==> st' == st
    ensures JoinEntry(people, st.selectedUser, st.location).Some? ==>
      var e := JoinEntry(people, st.selectedUser, st.location).value;
      && st'.selectedDate == st.selectedDate
      && st'.selectedUser == st.selectedUser
      && st'.location == DefaultLocation
      && st'.schedule.Keys == st.schedule.Keys + {st.selectedDate}
      && CurrentSessions(st'.schedule, st.selectedDate)
           == ArrayUnion(CurrentSessions(st.schedule, st.selectedDate), e)
      && e in CurrentSessions(st'.schedule, st.selectedDate)
      && (forall x :: x in CurrentSessions(st'.schedule, st.selectedDate)
            <==> x in CurrentSessions(st.schedule, st.selectedDate) || x == e)
      && (forall d :: d != st.selectedDate ==>
            CurrentSessions(st'.schedule, d) == CurrentSessions(st.schedule, d))
  {
    match JoinEntry(people, st.selectedUser, st.location)
    case None => st
    case Some(e) =>
      var sessions := ArrayUnion(CurrentSessions(st.schedule, st.selectedDate), e);
      st.(schedule := st.schedule[st.selectedDate := sessions], location := DefaultLocation)
  }

  /** The leave button on `entry`: remove it from the selected day. A day
      with no document rejects the update, which leaves everything as it was. */
  function HandleLeave(st: CalendarState, entry: ScheduleEntry): (st': CalendarState)
    ensures st'.selectedDate == st.selectedDate && st'.selectedUser == st.selectedUser
    ensures st'.location == st.location
    ensures st'.schedule.Keys == st.schedule.Keys
    ensures CurrentSessions(st'.schedule, st.selectedDate)
         == ArrayRemove(CurrentSessions(st.schedule, st.selectedDate), entry)
    ensures entry !in CurrentSessions(st'.schedule, st.selectedDate)
    ensures forall x :: (x in CurrentSessions(st'.schedule, st.selectedDate)
      <==> x in CurrentSessions(st.schedule, st.selectedDate) && x != entry)
    ensures forall d :: d != st.selectedDate ==>
      CurrentSessions(st'.schedule, d) == CurrentSessions(st.schedule, d)
  {
    if st.selectedDate !in st.schedule then st
    else st.(schedule := st.schedule[st.selectedDate := ArrayRemove(st.schedule[st.selectedDate], entry)])
  }

  /** `arrayRemove` keeps the order of what it keeps: removing from a
      concatenation removes from each part. With the one-element case this
      fixes the result exactly. */
  lemma {:induction false} ArrayRemoveConcat(a: seq<ScheduleEntry>, b: seq<ScheduleEntry>, e: ScheduleEntry)
    ensures ArrayRemove(a + b, e) == ArrayRemove(a, e) + ArrayRemove(b, e)
  {
    if a == [] {
      assert a + b == b;
    } else {
      var ab := a + b;
      assert ab[0] == a[0];
      assert ab[1..] == a[1..] + b;
      ArrayRemoveConcat(a[1..], b, e);
      if a[0] != e {
        calc {
          ArrayRemove(ab, e);
          [a[0]] + ArrayRemove(a[1..] + b, e);
          [a[0]] + (ArrayRemove(a[1..], e) + ArrayRemove(b, e));
          ([a[0]] + ArrayRemove(a[1..], e)) + ArrayRemove(b, e);
          ArrayRemove(a, e) + ArrayRemove(b, e);
        }
      }
    }
  }

  /** Removing an element that is not there changes nothing. */
  lemma {:induction false} ArrayRemoveAbsent(s: seq<ScheduleEntry>, e: ScheduleEntry)
    requires e !in s
    ensures ArrayRemove(s, e) == s
  {
    if s != [] {
      ArrayRemoveAbsent(s[1..], e);
    }
  }

  /** In a list without duplicates, removing a present entry removes exactly
      one element. */
  lemma {:induction false} ArrayRemoveOne(s: seq<ScheduleEntry>, e: ScheduleEntry)
    requires NoDuplicates(s) && e in s
    ensures |ArrayRemove(s, e)| == |s| - 1
  {
    if s[0] == e {
      assert e !in s[1..];
      ArrayRemoveAbsent(s[1..], e);
    } else {
      ArrayRemoveOne(s[1..], e);
    }
  }

  /** Leaving with an entry that is not in the day's list is a no-op. */
  lemma LeaveAbsentIsNoOp(st: CalendarState, entry: ScheduleEntry)
    requires entry !in CurrentSessions(st.schedule, st.selectedDate)
    ensures HandleLeave(st, entry) == st
  {
    if st.selectedDate in st.schedule {
      ArrayRemoveAbsent(st.schedule[st.selectedDate], entry);
      assert st.schedule[st.selectedDate := st.schedule[st.selectedDate]] == st.schedule;
    }
  }

  /** Joining with the same entry twice leaves the day's list as joining once. */
  lemma JoinIsIdempotent(st: CalendarState, people: seq<Person>)
    requires JoinEntry(people, st.selectedUser, st.location).Some?
    ensures var once := HandleJoin(st, people);
      HandleJoin(once.(location := st.location), people).schedule == once.schedule
  {
    var once := HandleJoin(st, people);
    var e := JoinEntry(people, st.selectedUser, st.location).value;
    assert JoinEntry(people, once.selectedUser, st.location) == Some(e);
    assert once.schedule[st.selectedDate := once.schedule[st.selectedDate]] == once.schedule;
  }

  /** Join then leave with the same entry restores the day's list when the
      climber was not on it before. */
  lemma JoinThenLeaveRestores(st: CalendarState, people: seq<Person>)
    requires JoinEntry(people, st.selectedUser, st.location).Some?
    requires JoinEntry(people, st.selectedUser, st.location).value
             !in CurrentSessions(st.schedule, st.selectedDate)
    ensures var e := JoinEntry(people, st.selectedUser, st.location).value;
      CurrentSessions(HandleLeave(HandleJoin(st, people), e).schedule, st.selectedDate)
        == CurrentSessions(st.schedule, st.selectedDate)
  {
    var e := JoinEntry(people, st.selectedUser, st.location).value;
    var before := CurrentSessions(st.schedule, st.selectedDate);
    ArrayRemoveAppended(before, e);
  }

  lemma {:induction false} ArrayRemoveAppended(s: seq<ScheduleEntry>, e: ScheduleEntry)
    requires e !in s
    ensures ArrayRemove(s + [e], e) == s
  {
    if s == [] {
      assert [e][1..] == [];
    } else {
      assert (s + [e])[1..] == s[1..] + [e];
      ArrayRemoveAppended(s[1..], e);
    }
  }

  /** Joins and leaves keep every day free of duplicate entries, so in
      reachable states a leave removes exactly one entry. */
  lemma ActionsKeepNoDuplicates(st: CalendarState, people: seq<Person>, entry: ScheduleEntry, d: string)
    requires forall d' :: d' in st.schedule ==> NoDuplicates(st.schedule[d'])
    ensures NoDuplicates(CurrentSessions(HandleJoin(st, people).schedule, d))
    ensures NoDuplicates(CurrentSessions(HandleLeave(st, entry).schedule, d))
  {
  }
}
