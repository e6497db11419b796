/**
 * Worked examples of `calculateOptimalDates` (pages/index.js:276-337): a cell
 * everybody can attend, a cell only half the target students can attend, and
 * two equally attended cells listed against the calendar. Each is stated for
 * every event of the described shape, whatever the order of its responses.
 */
module Scenarios {
  import opened Wrappers
  import opened Calendar
  import opened SlotKey
  import opened Model
  import opened Aggregation

  /**
   * The responses of `e`, in any order, are those of `teachers`, of target
   * students and of students outside the target grades.
   */
  predicate Grouped(e: Event, teachers: seq<Response>, students: seq<Response>, outsiders: seq<Response>) {
    && multiset(Values(e.responses)) == multiset(teachers + students + outsiders)
    && (forall k :: 0 <= k < |teachers| ==> teachers[k].userRole == Teacher)
    && (forall k :: 0 <= k < |students| ==> IsTargetStudent(students[k], e.targetGrades))
    && (forall k :: 0 <= k < |outsiders| ==> outsiders[k].userRole == Student && !IsTargetStudent(outsiders[k], e.targetGrades))
  }

  /** Everybody in `rs` answered yes for `key`. */
  predicate AllYes(rs: seq<Response>, key: string) {
    forall r :: r in rs ==> AnsweredYes(r, key)
  }

  /**
   * Three teachers and two target students say yes to the only cell (and
   * any number of students outside the target grades answer anything): the
   * cell qualifies with 3 teachers and 2 students, and it is both
   * recommendations.
   */
  lemma ScenarioAllAvailable(e: Event, teachers: seq<Response>, students: seq<Response>, outsiders: seq<Response>)
    requires |e.candidateDates| == 1 && |e.timeSlots| == 1
    requires Grouped(e, teachers, students, outsiders) && |teachers| == 3 && |students| == 2
    requires AllYes(teachers + students, Key(e.candidateDates[0], e.timeSlots[0]))
    ensures var a := Analyze(e);
      && a.teacherCount == 3 && a.studentCount == 2
      && |a.allResults| == 1
      && a.allResults[0].availableTeachers == 3 && a.allResults[0].availableStudents == 2
      && a.allResults[0].meetsCriteria
      && a.validDates == a.allResults
      && a.mostParticipants == Some(a.allResults[0]) && a.earliest == Some(a.allResults[0])
  {
    var key := Key(e.candidateDates[0], e.timeSlots[0]);
    GroupsFiltered(e, teachers, students, outsiders);
    CountYesExtremes(teachers, key);
    CountYesExtremes(students, key);
    SingleCell(e, teachers, students);
  }

  /**
   * As before, but the second target student does not say yes: one in two is
   * below 80%, so nothing qualifies and both recommendations are null,
   * however many teachers are free.
   */
  lemma ScenarioHalfTheStudents(e: Event, teachers: seq<Response>, students: seq<Response>, outsiders: seq<Response>)
    requires |e.candidateDates| == 1 && |e.timeSlots| == 1
    requires Grouped(e, teachers, students, outsiders) && |teachers| == 3 && |students| == 2
    requires AllYes(teachers, Key(e.candidateDates[0], e.timeSlots[0]))
    requires AnsweredYes(students[0], Key(e.candidateDates[0], e.timeSlots[0]))
    requires !AnsweredYes(students[1], Key(e.candidateDates[0], e.timeSlots[0]))
    ensures var a := Analyze(e);
      && a.teacherCount == 3 && a.studentCount == 2
      && |a.allResults| == 1
      && a.allResults[0].availableTeachers == 3 && a.allResults[0].availableStudents == 1
      && !a.allResults[0].meetsCriteria
      && a.validDates == []
      && a.mostParticipants.None? && a.earliest.None?
  {
    var key := Key(e.candidateDates[0], e.timeSlots[0]);
    GroupsFiltered(e, teachers, students, outsiders);
    CountYesExtremes(teachers, key);
    assert CountYes(students, key) == 1 by {
      assert students[1..][1..] == [];
    }
    SingleCell(e, teachers, students);
  }

  /**
   * Two candidate dates, the later one listed first, one slot, and every
   * teacher and target student free in both cells: the cells tie on
   * attendance, so the most attended one is the first-listed date's (grid
   * order) while the earliest one is the other date's.
   */
  lemma ScenarioTieGoesToGridOrder(e: Event, teachers: seq<Response>, students: seq<Response>, outsiders: seq<Response>)
    requires |e.candidateDates| == 2 && |e.timeSlots| == 1
    requires DateBefore(e.candidateDates[1], e.candidateDates[0])
    requires Grouped(e, teachers, students, outsiders) && |students| > 0
    requires AllYes(teachers + students, Key(e.candidateDates[0], e.timeSlots[0]))
    requires AllYes(teachers + students, Key(e.candidateDates[1], e.timeSlots[0]))
    ensures var a := Analyze(e);
      && |a.validDates| == 2
      && a.validDates[0].totalAvailable == a.validDates[1].totalAvailable == |teachers| + |students|
      && a.mostParticipants.Some? && a.mostParticipants.value.date == e.candidateDates[0]
      && a.earliest.Some? && a.earliest.value.date == e.candidateDates[1]
  {
    var later, sooner, slot := e.candidateDates[0], e.candidateDates[1], e.timeSlots[0];
    var cl, cs := Cell(teachers, students, later, slot), Cell(teachers, students, sooner, slot);
    assert cl.meetsCriteria && cs.meetsCriteria && cl.totalAvailable == cs.totalAvailable == |teachers| + |students| by {
      forall key | key == Key(later, slot) || key == Key(sooner, slot)
        ensures CountYes(teachers, key) == |teachers| && CountYes(students, key) == |students|
      {
        CountYesExtremes(teachers, key);
        CountYesExtremes(students, key);
      }
    }
    var valid := [cl, cs];
    assert ValidResults(valid) == valid by {
      assert valid[..1] == [cl] && [cl][..0] == [];
    }
    assert ReduceMax(valid) == cl && ReduceEarliest(valid) == cs by {
      assert valid[..1] == [cl];
    }
    GroupsFiltered(e, teachers, students, outsiders);
    TwoCells(e, teachers, students);
  }

  // ---------------------------------------------------------------------

  /** The two filters pick out the teachers and the target students, up to order. */
  lemma GroupsFiltered(e: Event, teachers: seq<Response>, students: seq<Response>, outsiders: seq<Response>)
    requires Grouped(e, teachers, students, outsiders)
    ensures multiset(Teachers(Values(e.responses))) == multiset(teachers)
    ensures multiset(TargetStudents(Values(e.responses), e.targetGrades)) == multiset(students)
  {
    TeachersPermutation(Values(e.responses), teachers + students + outsiders);
    TargetStudentsPermutation(Values(e.responses), teachers + students + outsiders, e.targetGrades);
    FiltersOfTeachers(teachers, e.targetGrades);
    FiltersOfTargetStudents(students, e.targetGrades);
    FiltersOfOutsiders(outsiders, e.targetGrades);
    TeachersAppend(teachers, students);
    TeachersAppend(teachers + students, outsiders);
    TargetStudentsAppend(teachers, students, e.targetGrades);
    TargetStudentsAppend(teachers + students, outsiders, e.targetGrades);
  }

  /** The analysis of a one-cell event, given its teachers and target students. */
  lemma SingleCell(e: Event, teachers: seq<Response>, students: seq<Response>)
    requires |e.candidateDates| == 1 && |e.timeSlots| == 1
    requires multiset(Teachers(Values(e.responses))) == multiset(teachers)
    requires multiset(TargetStudents(Values(e.responses), e.targetGrades)) == multiset(students)
    ensures var c := Cell(teachers, students, e.candidateDates[0], e.timeSlots[0]);
      var a := Analyze(e);
      && a.allResults == [c]
      && a.teacherCount == |teachers| && a.studentCount == |students|
      && a.validDates == (if c.meetsCriteria then [c] else [])
      && a.mostParticipants == (if c.meetsCriteria then Some(c) else None)
      && a.earliest == a.mostParticipants
  {
    var c := Cell(teachers, students, e.candidateDates[0], e.timeSlots[0]);
    SameGroups(e, teachers, students);
    GridOfOne(teachers, students, e.candidateDates, e.timeSlots);
    ValidResultsSnoc([], c);
    assert [] + [c] == [c];
  }

  /** The grid of a two-date, one-slot event, given its teachers and target students. */
  lemma TwoCells(e: Event, teachers: seq<Response>, students: seq<Response>)
    requires |e.candidateDates| == 2 && |e.timeSlots| == 1
    requires multiset(Teachers(Values(e.responses))) == multiset(teachers)
    requires multiset(TargetStudents(Values(e.responses), e.targetGrades)) == multiset(students)
    ensures var c0 := Cell(teachers, students, e.candidateDates[0], e.timeSlots[0]);
      var c1 := Cell(teachers, students, e.candidateDates[1], e.timeSlots[0]);
      var a := Analyze(e);
      && a.allResults == [c0, c1]
      && a.validDates == ValidResults([c0, c1])
  {
    SameGroups(e, teachers, students);
    GridOfTwo(teachers, students, e.candidateDates, e.timeSlots);
  }

  /** With the groups known up to order, the grid and the group sizes are those of the known lists. */
  lemma SameGroups(e: Event, teachers: seq<Response>, students: seq<Response>)
    requires multiset(Teachers(Values(e.responses))) == multiset(teachers)
    requires multiset(TargetStudents(Values(e.responses), e.targetGrades)) == multiset(students)
    ensures AllResults(e) == Grid(teachers, students, e.candidateDates, e.timeSlots)
    ensures Analyze(e).teacherCount == |teachers| && Analyze(e).studentCount == |students|
  {
    var rs := Values(e.responses);
    GridPermutation(Teachers(rs), teachers, TargetStudents(rs, e.targetGrades), students, e.candidateDates, e.timeSlots);
    assert |Teachers(rs)| == |multiset(Teachers(rs))| == |teachers|;
    assert |TargetStudents(rs, e.targetGrades)| == |multiset(TargetStudents(rs, e.targetGrades))| == |students|;
  }

  lemma GridOfOne(teachers: seq<Response>, students: seq<Response>, dates: seq<Day>, slots: seq<ClockTime>)
    requires |dates| == 1 && |slots| == 1
    ensures Grid(teachers, students, dates, slots) == [Cell(teachers, students, dates[0], slots[0])]
  {
    assert dates[..0] == [];
    assert Row(teachers, students, dates[0], slots) == [Cell(teachers, students, dates[0], slots[0])];
  }

  lemma GridOfTwo(teachers: seq<Response>, students: seq<Response>, dates: seq<Day>, slots: seq<ClockTime>)
    requires |dates| == 2 && |slots| == 1
    ensures Grid(teachers, students, dates, slots)
      == [Cell(teachers, students, dates[0], slots[0]), Cell(teachers, students, dates[1], slots[0])]
  {
    GridOfOne(teachers, students, dates[..1], slots);
    assert Row(teachers, students, dates[1], slots) == [Cell(teachers, students, dates[1], slots[0])];
  }

  /** The filter on a list ending with `c`: `c` is kept exactly when it qualifies. */
  lemma ValidResultsSnoc(init: seq<SlotResult>, c: SlotResult)
    ensures ValidResults(init + [c]) == ValidResults(init) + if c.meetsCriteria then [c] else []
  {
    assert (init + [c])[..|init|] == init;
  }
}
