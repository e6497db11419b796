/**
 * `calculateOptimalDates` (pages/index.js:276-337): per-cell availability
 * counts over the grid of candidate dates and time slots, the 80% student
 * quorum, and the two recommended cells.
 */
module Aggregation {
  import opened Wrappers
  import opened Calendar
  import opened SlotKey
  import opened Model

  /** `r.answers[key] === true`: a missing key or a `false` counts as unavailable. */
  predicate AnsweredYes(r: Response, key: string)
    ensures AnsweredYes(r, key) ==> key in r.answers
  {
    key in r.answers && r.answers[key]
  }

  /** A student whose declared grade is one of the event's target grades. */
  predicate IsTargetStudent(r: Response, grades: seq<Grade>)
    ensures IsTargetStudent(r, grades) ==> r.userRole == Student && r.userGrade.Some?
    ensures grades == [] ==> !IsTargetStudent(r, grades)
  {
    r.userRole == Student && r.userGrade.Some? && r.userGrade.value in grades
  }

  /** `responses.filter(r => r.userRole === 'teacher')`. */
  function Teachers(rs: seq<Response>): (ts: seq<Response>)
    ensures |ts| <= |rs|
  {
    if rs == [] then []
    else (if rs[0].userRole == Teacher then [rs[0]] else []) + Teachers(rs[1..])
  }

  /** `responses.filter(r => r.userRole === 'student' && targetGrades.includes(r.userGrade))`. */
  function TargetStudents(rs: seq<Response>, grades: seq<Grade>): (ss: seq<Response>)
    ensures |ss| <= |rs|
  {
    if rs == [] then []
    else (if IsTargetStudent(rs[0], grades) then [rs[0]] else []) + TargetStudents(rs[1..], grades)
  }

  /** The teachers are the responses whose role is teacher; the target students those in a target grade. */
  lemma {:induction false} FiltersMembers(rs: seq<Response>, grades: seq<Grade>)
    ensures forall r :: r in Teachers(rs) <==> r in rs && r.userRole == Teacher
    ensures forall r :: r in TargetStudents(rs, grades) <==> r in rs && IsTargetStudent(r, grades)
  {
    if rs != [] {
      FiltersMembers(rs[1..], grades);
      assert forall r :: r in rs <==> r == rs[0] || r in rs[1..];
    }
  }

  /** The teacher filter distributes over concatenation: it keeps the responses' order. */
  lemma {:induction false} TeachersAppend(xs: seq<Response>, ys: seq<Response>)
    ensures Teachers(xs + ys) == Teachers(xs) + Teachers(ys)
  {
    if xs == [] {
      assert xs + ys == ys;
    } else {
      var zs := xs + ys;
      assert zs[0] == xs[0] && zs[1..] == xs[1..] + ys;
      TeachersAppend(xs[1..], ys);
      var head := if xs[0].userRole == Teacher then [xs[0]] else [];
      assert Teachers(zs) == head + Teachers(zs[1..]);
      assert Teachers(xs) == head + Teachers(xs[1..]);
    }
  }

  /** The target-student filter distributes over concatenation: it keeps the responses' order. */
  lemma {:induction false} TargetStudentsAppend(xs: seq<Response>, ys: seq<Response>, grades: seq<Grade>)
    ensures TargetStudents(xs + ys, grades) == TargetStudents(xs, grades) + TargetStudents(ys, grades)
  {
    if xs == [] {
      assert xs + ys == ys;
    } else {
      var zs := xs + ys;
      assert zs[0] == xs[0] && zs[1..] == xs[1..] + ys;
      TargetStudentsAppend(xs[1..], ys, grades);
      var head := if IsTargetStudent(xs[0], grades) then [xs[0]] else [];
      assert TargetStudents(zs, grades) == head + TargetStudents(zs[1..], grades);
      assert TargetStudents(xs, grades) == head + TargetStudents(xs[1..], grades);
    }
  }

  /** Nobody is both a teacher and a target student, so the two groups together are at most everyone. */
  lemma {:induction false} GroupSizes(rs: seq<Response>, grades: seq<Grade>)
    ensures |Teachers(rs)| + |TargetStudents(rs, grades)| <= |rs|
  {
    if rs != [] {
      GroupSizes(rs[1..], grades);
    }
  }

  /** A list of teachers passes the teacher filter whole and the student filter not at all. */
  lemma {:induction false} FiltersOfTeachers(xs: seq<Response>, grades: seq<Grade>)
    requires forall k :: 0 <= k < |xs| ==> xs[k].userRole == Teacher
    ensures Teachers(xs) == xs && TargetStudents(xs, grades) == []
  {
    if xs != [] {
      FiltersOfTeachers(xs[1..], grades);
      assert xs == [xs[0]] + xs[1..];
    }
  }

  /** A list of target students passes the student filter whole and the teacher filter not at all. */
  lemma {:induction false} FiltersOfTargetStudents(xs: seq<Response>, grades: seq<Grade>)
    requires forall k :: 0 <= k < |xs| ==> IsTargetStudent(xs[k], grades)
    ensures Teachers(xs) == [] && TargetStudents(xs, grades) == xs
  {
    if xs != [] {
      FiltersOfTargetStudents(xs[1..], grades);
      assert xs == [xs[0]] + xs[1..];
    }
  }

  /** Students outside the target grades pass neither filter. */
  lemma {:induction false} FiltersOfOutsiders(xs: seq<Response>, grades: seq<Grade>)
    requires forall k :: 0 <= k < |xs| ==> xs[k].userRole == Student && !IsTargetStudent(xs[k], grades)
    ensures Teachers(xs) == [] && TargetStudents(xs, grades) == []
  {
    if xs != [] {
      FiltersOfOutsiders(xs[1..], grades);
    }
  }

  /** How many of `rs` answered yes for `key`. */
  function CountYes(rs: seq<Response>, key: string): (n: nat)
    ensures n <= |rs|
  {
    if rs == [] then 0
    else (if AnsweredYes(rs[0], key) then 1 else 0) + CountYes(rs[1..], key)
  }

  /** The count reaches the whole group exactly when everyone said yes, and 0 exactly when nobody did. */
  lemma {:induction false} CountYesExtremes(rs: seq<Response>, key: string)
    ensures CountYes(rs, key) == |rs| <==> forall r :: r in rs ==> AnsweredYes(r, key)
    ensures CountYes(rs, key) == 0 <==> forall r :: r in rs ==> !AnsweredYes(r, key)
  {
    if rs != [] {
      CountYesExtremes(rs[1..], key);
      assert forall r :: r in rs <==> r == rs[0] || r in rs[1..];
    }
  }

  /** One pushed record of `results`; `studentRatio` is represented by its two counts. */
  datatype SlotResult = SlotResult(
    date: Day,
    slot: ClockTime,
    key: string,
    availableTeachers: nat,
    availableStudents: nat,
    totalTargetStudents: nat,
    studentCondition: bool,
    meetsCriteria: bool,
    totalAvailable: nat)

  /**
   * `studentRatio >= 0.8`, where the ratio is `available / total` when there
   * are target students and 0 otherwise; compared without rounding.
   */
  predicate Quorum(available: nat, total: nat)
    ensures Quorum(available, total) <==> total > 0 && available as real >= 0.8 * total as real
  {
    total > 0 && 5 * available >= 4 * total
  }

  /** The record for one (date, slot) cell. */
  function Cell(teachers: seq<Response>, students: seq<Response>, date: Day, slot: ClockTime): (c: SlotResult)
    ensures c.date == date && c.slot == slot && c.key == Key(date, slot)
    ensures c.availableTeachers <= |teachers| && c.availableStudents <= c.totalTargetStudents == |students|
    ensures c.totalAvailable == c.availableTeachers + c.availableStudents
    ensures c.meetsCriteria == c.studentCondition
    ensures c.meetsCriteria ==> c.availableStudents > 0
  {
    var key := Key(date, slot);
    var t := CountYes(teachers, key);
    var s := CountYes(students, key);
    var condition := Quorum(s, |students|);
    SlotResult(date, slot, key, t, s, |students|, condition, condition, t + s)
  }

  /** The records pushed by the inner `forEach` over the slots of one date. */
  function Row(teachers: seq<Response>, students: seq<Response>, date: Day, slots: seq<ClockTime>): (row: seq<SlotResult>)
    ensures |row| == |slots|
    ensures forall j :: 0 <= j < |slots| ==> row[j] == Cell(teachers, students, date, slots[j])
  {
    if slots == [] then []
    else Row(teachers, students, date, slots[..|slots| - 1]) + [Cell(teachers, students, date, slots[|slots| - 1])]
  }

  /** `results` after the outer `forEach` over `dates`: date-major, slot-minor. */
  function Grid(teachers: seq<Response>, students: seq<Response>, dates: seq<Day>, slots: seq<ClockTime>): (g: seq<SlotResult>)
  {
    if dates == [] then []
    else Grid(teachers, students, dates[..|dates| - 1], slots) + Row(teachers, students, dates[|dates| - 1], slots)
  }

  /** One record per candidate date and slot. */
  lemma {:induction false} GridLength(teachers: seq<Response>, students: seq<Response>, dates: seq<Day>, slots: seq<ClockTime>)
    ensures |Grid(teachers, students, dates, slots)| == |dates| * |slots|
  {
    if dates != [] {
      GridLength(teachers, students, dates[..|dates| - 1], slots);
      assert (|dates| - 1) * |slots| + |slots| == |dates| * |slots|;
    }
  }

  /** `results.filter(r => r.meetsCriteria)`. */
  function ValidResults(rs: seq<SlotResult>): (vs: seq<SlotResult>)
    ensures |vs| <= |rs|
  {
    if rs == [] then []
    else
      var last := rs[|rs| - 1];
      ValidResults(rs[..|rs| - 1]) + (if last.meetsCriteria then [last] else [])
  }

  /** A record is kept exactly when it meets the criteria. */
  lemma {:induction false} ValidResultsMembers(rs: seq<SlotResult>)
    ensures forall r :: r in ValidResults(rs) <==> r in rs && r.meetsCriteria
  {
    if rs != [] {
      ValidResultsMembers(rs[..|rs| - 1]);
      assert rs == rs[..|rs| - 1] + [rs[|rs| - 1]];
    }
  }

  /** `vs.reduce((max, curr) => curr.totalAvailable > max.totalAvailable ? curr : max)`. */
  function ReduceMax(vs: seq<SlotResult>): (max: SlotResult)
    requires |vs| > 0
    ensures max in vs
    ensures forall k :: 0 <= k < |vs| ==> vs[k].totalAvailable <= max.totalAvailable
  {
    if |vs| == 1 then vs[0]
    else
      var max := ReduceMax(vs[..|vs| - 1]);
      var curr := vs[|vs| - 1];
      if curr.totalAvailable > max.totalAvailable then curr else max
  }

  /** `vs.reduce((min, curr) => currDate < minDate ? curr : min)` on the cells' instants. */
  function ReduceEarliest(vs: seq<SlotResult>): (min: SlotResult)
    requires |vs| > 0
    ensures min in vs
    ensures forall k :: 0 <= k < |vs| ==> !InstantBefore(vs[k].date, vs[k].slot, min.date, min.slot)
  {
    if |vs| == 1 then vs[0]
    else
      var min := ReduceEarliest(vs[..|vs| - 1]);
      var curr := vs[|vs| - 1];
      if InstantBefore(curr.date, curr.slot, min.date, min.slot) then curr else min
  }

  /** `validDates.length > 0 ? reduce(...) : null`: null exactly when nothing qualifies, else a most attended cell. */
  function MostParticipants(vs: seq<SlotResult>): (r: Option<SlotResult>)
    ensures r.None? <==> vs == []
    ensures r.Some? ==> r.value in vs && forall k :: 0 <= k < |vs| ==> vs[k].totalAvailable <= r.value.totalAvailable
  {
    if |vs| > 0 then Some(ReduceMax(vs)) else None
  }

  /** Null exactly when nothing qualifies, else a cell no other qualifying cell precedes. */
  function Earliest(vs: seq<SlotResult>): (r: Option<SlotResult>)
    ensures r.None? <==> vs == []
    ensures r.Some? ==> r.value in vs && forall k :: 0 <= k < |vs| ==> !InstantBefore(vs[k].date, vs[k].slot, r.value.date, r.value.slot)
  {
    if |vs| > 0 then Some(ReduceEarliest(vs)) else None
  }

  /** The object `calculateOptimalDates` returns. */
  datatype Analysis = Analysis(
    allResults: seq<SlotResult>,
    validDates: seq<SlotResult>,
    mostParticipants: Option<SlotResult>,
    earliest: Option<SlotResult>,
    teacherCount: nat,
    studentCount: nat)

  /** The `results` array of an event: one record per cell of its grid. */
  function AllResults(e: Event): (all: seq<SlotResult>)
    ensures |all| == |e.candidateDates| * |e.timeSlots|
  {
    var rs := Values(e.responses);
    GridLength(Teachers(rs), TargetStudents(rs, e.targetGrades), e.candidateDates, e.timeSlots);
    Grid(Teachers(rs), TargetStudents(rs, e.targetGrades), e.candidateDates, e.timeSlots)
  }

  function Analyze(e: Event): (a: Analysis)
    ensures |a.allResults| == |e.candidateDates| * |e.timeSlots|
    ensures |a.validDates| <= |a.allResults|
    ensures a.mostParticipants.None? <==> a.validDates == []
    ensures a.earliest.None? <==> a.validDates == []
    ensures a.teacherCount + a.studentCount <= |e.responses|
  {
    var rs := Values(e.responses);
    GroupSizes(rs, e.targetGrades);
    var all := AllResults(e);
    var valid := ValidResults(all);
    Analysis(all, valid, MostParticipants(valid), Earliest(valid), |Teachers(rs)|, |TargetStudents(rs, e.targetGrades)|)
  }

  /** The inner `forEach` over the slots of one date, pushing onto `results`. */
  method PushRow(results: seq<SlotResult>, teachers: seq<Response>, students: seq<Response>, date: Day, slots: seq<ClockTime>)
    returns (out: seq<SlotResult>)
    ensures out == results + Row(teachers, students, date, slots)
  {
    out := results;
    var j := 0;
    while j < |slots|
      invariant 0 <= j <= |slots|
      invariant out == results + Row(teachers, students, date, slots[..j])
    {
      out := out + [Cell(teachers, students, date, slots[j])];
      assert slots[..j + 1][..j] == slots[..j];
      j := j + 1;
    }
    assert slots[..j] == slots;
  }

  /** The outer `forEach` over the candidate dates. */
  method CollectResults(teachers: seq<Response>, students: seq<Response>, dates: seq<Day>, slots: seq<ClockTime>)
    returns (results: seq<SlotResult>)
    ensures results == Grid(teachers, students, dates, slots)
  {
    results := [];
    var i := 0;
    while i < |dates|
      invariant 0 <= i <= |dates|
      invariant results == Grid(teachers, students, dates[..i], slots)
    {
      results := PushRow(results, teachers, students, dates[i], slots);
      assert dates[..i + 1][..i] == dates[..i];
      i := i + 1;
    }
    assert dates[..i] == dates;
  }

  /** `results.filter(r => r.meetsCriteria)`, pushing in order. */
  method FilterValid(results: seq<SlotResult>) returns (valid: seq<SlotResult>)
    ensures valid == ValidResults(results)
  {
    valid := [];
    var k := 0;
    while k < |results|
      invariant 0 <= k <= |results|
      invariant valid == ValidResults(results[..k])
    {
      if results[k].meetsCriteria {
        valid := valid + [results[k]];
      }
      assert results[..k + 1][..k] == results[..k];
      k := k + 1;
    }
    assert results[..k] == results;
  }

  /** `validDates.reduce((max, curr) => curr.totalAvailable > max.totalAvailable ? curr : max)`. */
  method ReduceMaxLoop(valid: seq<SlotResult>) returns (max: SlotResult)
    requires |valid| > 0
    ensures max == ReduceMax(valid)
  {
    max := valid[0];
    var n := 1;
    while n < |valid|
      invariant 1 <= n <= |valid|
      invariant max == ReduceMax(valid[..n])
    {
      var curr := valid[n];
      if curr.totalAvailable > max.totalAvailable {
        max := curr;
      }
      assert valid[..n + 1][..n] == valid[..n];
      n := n + 1;
    }
    assert valid[..n] == valid;
  }

  /** `validDates.reduce((min, curr) => currDate < minDate ? curr : min)`. */
  method ReduceEarliestLoop(valid: seq<SlotResult>) returns (min: SlotResult)
    requires |valid| > 0
    ensures min == ReduceEarliest(valid)
  {
    min := valid[0];
    var n := 1;
    while n < |valid|
      invariant 1 <= n <= |valid|
      invariant min == ReduceEarliest(valid[..n])
    {
      var curr := valid[n];
      if InstantBefore(curr.date, curr.slot, min.date, min.slot) {
        min := curr;
      }
      assert valid[..n + 1][..n] == valid[..n];
      n := n + 1;
    }
    assert valid[..n] == valid;
  }

  /** The two reductions over the qualifying cells; both stay null when there is none. */
  method Recommend(valid: seq<SlotResult>) returns (mostParticipants: Option<SlotResult>, earliest: Option<SlotResult>)
    ensures mostParticipants == MostParticipants(valid)
    ensures earliest == Earliest(valid)
  {
    mostParticipants, earliest := None, None;
    if |valid| > 0 {
      var max := ReduceMaxLoop(valid);
      var min := ReduceEarliestLoop(valid);
      mostParticipants, earliest := Some(max), Some(min);
    }
  }

  /** `calculateOptimalDates(event)`. */
  method CalculateOptimalDates(e: Event) returns (a: Analysis)
    ensures a == Analyze(e)
  {
    var responses := Values(e.responses);
    var teachers := Teachers(responses);
    var students := TargetStudents(responses, e.targetGrades);
    var results := CollectResults(teachers, students, e.candidateDates, e.timeSlots);
    var valid := FilterValid(results);
    var mostParticipants, earliest := Recommend(valid);
    a := Analysis(results, valid, mostParticipants, earliest, |teachers|, |students|);
  }

  // ---------------------------------------------------------------------
  // The grid: one record per (date, slot), date-major

  lemma MulStep(i: nat, n: nat, m: nat)
    requires i < n
    ensures i * m + m <= n * m
  {
    assert (i + 1) * m == i * m + m;
    assert (i + 1) * m <= n * m;
  }

  /** Cell `j` of date `i` sits at position `i * |slots| + j` of `results`. */
  lemma {:induction false} GridAt(teachers: seq<Response>, students: seq<Response>, dates: seq<Day>, slots: seq<ClockTime>, i: nat, j: nat)
    requires i < |dates| && j < |slots|
    ensures i * |slots| + j < |Grid(teachers, students, dates, slots)|
    ensures Grid(teachers, students, dates, slots)[i * |slots| + j] == Cell(teachers, students, dates[i], slots[j])
  {
    var n := |dates|;
    var init := dates[..n - 1];
    var prefix := Grid(teachers, students, init, slots);
    GridLength(teachers, students, init, slots);
    GridLength(teachers, students, dates, slots);
    MulStep(i, n, |slots|);
    if i < n - 1 {
      GridAt(teachers, students, init, slots, i, j);
      MulStep(i, n - 1, |slots|);
    } else {
      assert i * |slots| == |prefix|;
    }
  }

  /** Every record of the grid is the cell of one candidate date and one slot. */
  lemma {:induction false} GridMember(teachers: seq<Response>, students: seq<Response>, dates: seq<Day>, slots: seq<ClockTime>, r: SlotResult)
    requires r in Grid(teachers, students, dates, slots)
    ensures exists d, t :: d in dates && t in slots && r == Cell(teachers, students, d, t)
  {
    var n := |dates|;
    var init := dates[..n - 1];
    if r in Grid(teachers, students, init, slots) {
      GridMember(teachers, students, init, slots, r);
      var d, t :| d in init && t in slots && r == Cell(teachers, students, d, t);
      assert d in dates;
    } else {
      var row := Row(teachers, students, dates[n - 1], slots);
      var j :| 0 <= j < |row| && row[j] == r;
      assert slots[j] in slots;
    }
  }

  /** `allResults` has one record per candidate date and time slot. */
  lemma AllResultsLength(e: Event)
    ensures |AllResults(e)| == |e.candidateDates| * |e.timeSlots|
  {
    var rs := Values(e.responses);
    GridLength(Teachers(rs), TargetStudents(rs, e.targetGrades), e.candidateDates, e.timeSlots);
  }

  /**
   * `allResults` lists every (date, slot) pair date-major: the record of slot
   * `j` of candidate date `i` is at `i * |timeSlots| + j`, with its key
   * `${date}_${slot}`, which reads back as that cell.
   */
  lemma AllResultsOrder(e: Event, i: nat, j: nat)
    requires i < |e.candidateDates| && j < |e.timeSlots|
    ensures var all, k := AllResults(e), i * |e.timeSlots| + j;
      && k < |all|
      && all[k].date == e.candidateDates[i]
      && all[k].slot == e.timeSlots[j]
      && all[k].key == Key(e.candidateDates[i], e.timeSlots[j])
  {
    var rs := Values(e.responses);
    GridAt(Teachers(rs), TargetStudents(rs, e.targetGrades), e.candidateDates, e.timeSlots, i, j);
  }

  // ---------------------------------------------------------------------
  // Counts and the quorum

  /**
   * Each record counts the teachers and the target students whose answer for
   * its key is `true`; neither count exceeds its group, and `totalAvailable`
   * is their sum.
   */
  lemma AllResultsCounts(e: Event)
    ensures var a := Analyze(e);
      var rs := Values(e.responses);
      forall r :: r in a.allResults ==>
        && r.date in e.candidateDates && r.slot in e.timeSlots
        && r.key == Key(r.date, r.slot)
        && r.availableTeachers == CountYes(Teachers(rs), r.key) <= a.teacherCount
        && r.availableStudents == CountYes(TargetStudents(rs, e.targetGrades), r.key) <= a.studentCount
        && r.totalTargetStudents == a.studentCount
        && r.totalAvailable == r.availableTeachers + r.availableStudents
  {
    var rs := Values(e.responses);
    forall r | r in Analyze(e).allResults
      ensures r.date in e.candidateDates && r.slot in e.timeSlots && r.key == Key(r.date, r.slot)
      ensures r.availableTeachers == CountYes(Teachers(rs), r.key)
      ensures r.availableStudents == CountYes(TargetStudents(rs, e.targetGrades), r.key)
      ensures r.totalTargetStudents == |TargetStudents(rs, e.targetGrades)|
      ensures r.totalAvailable == r.availableTeachers + r.availableStudents
    {
      GridMember(Teachers(rs), TargetStudents(rs, e.targetGrades), e.candidateDates, e.timeSlots, r);
    }
  }

  /**
   * A record meets the criteria exactly when there is at least one target
   * student and at least 80% of them answered yes; teachers play no part.
   */
  lemma MeetsCriteriaExactly(e: Event)
    ensures var a := Analyze(e);
      forall r :: r in a.allResults ==>
        && r.studentCondition == r.meetsCriteria
        && (r.meetsCriteria <==> a.studentCount > 0 && 5 * r.availableStudents >= 4 * a.studentCount)
  {
    var rs := Values(e.responses);
    forall r | r in Analyze(e).allResults
      ensures r.studentCondition == r.meetsCriteria
      ensures r.meetsCriteria <==> Quorum(r.availableStudents, |TargetStudents(rs, e.targetGrades)|)
    {
      GridMember(Teachers(rs), TargetStudents(rs, e.targetGrades), e.candidateDates, e.timeSlots, r);
    }
  }

  /** With no target student among the respondents no slot is ever recommended. */
  lemma NoTargetStudentsNoRecommendation(e: Event)
    requires Analyze(e).studentCount == 0
    ensures Analyze(e).validDates == []
    ensures Analyze(e).mostParticipants == None && Analyze(e).earliest == None
  {
    MeetsCriteriaExactly(e);
    NothingQualifies(Analyze(e).allResults);
  }

  // ---------------------------------------------------------------------
  // The filter

  /** The filter distributes over concatenation: it keeps the original order. */
  lemma {:induction false} ValidResultsAppend(xs: seq<SlotResult>, ys: seq<SlotResult>)
    ensures ValidResults(xs + ys) == ValidResults(xs) + ValidResults(ys)
  {
    if ys == [] {
      assert xs + ys == xs;
    } else {
      var zs := xs + ys;
      assert zs[..|zs| - 1] == xs + ys[..|ys| - 1];
      assert zs[|zs| - 1] == ys[|ys| - 1];
      ValidResultsAppend(xs, ys[..|ys| - 1]);
    }
  }

  lemma {:induction false} NothingQualifies(rs: seq<SlotResult>)
    requires forall r :: r in rs ==> !r.meetsCriteria
    ensures ValidResults(rs) == []
  {
    if rs != [] {
      assert rs[|rs| - 1] in rs;
      NothingQualifies(rs[..|rs| - 1]);
    }
  }

  /**
   * `validDates` holds exactly the records of `allResults` that meet the
   * criteria, in their original order.
   */
  lemma ValidDatesAreQualifyingResults(e: Event)
    ensures var a := Analyze(e);
      && (forall r :: r in a.validDates <==> r in a.allResults && r.meetsCriteria)
      && (forall k :: 0 <= k <= |a.allResults| ==>
            a.validDates == ValidResults(a.allResults[..k]) + ValidResults(a.allResults[k..]))
  {
    var all := Analyze(e).allResults;
    ValidResultsMembers(all);
    forall k | 0 <= k <= |all|
      ensures ValidResults(all) == ValidResults(all[..k]) + ValidResults(all[k..])
    {
      assert all == all[..k] + all[k..];
      ValidResultsAppend(all[..k], all[k..]);
    }
  }

  // ---------------------------------------------------------------------
  // The two recommendations

  /** Position `i` holds the first of the largest `totalAvailable` values. */
  ghost predicate FirstMaximum(vs: seq<SlotResult>, i: int) {
    && 0 <= i < |vs|
    && (forall j :: 0 <= j < |vs| ==> vs[j].totalAvailable <= vs[i].totalAvailable)
    && (forall j :: 0 <= j < i ==> vs[j].totalAvailable < vs[i].totalAvailable)
  }

  /** Position `i` holds the first of the earliest (date, slot) instants. */
  ghost predicate FirstEarliest(vs: seq<SlotResult>, i: int) {
    && 0 <= i < |vs|
    && (forall j :: 0 <= j < |vs| ==> !InstantBefore(vs[j].date, vs[j].slot, vs[i].date, vs[i].slot))
    && (forall j :: 0 <= j < i ==> InstantBefore(vs[i].date, vs[i].slot, vs[j].date, vs[j].slot))
  }

  /** The strict `>` of the reduction keeps the first of equal maxima. */
  lemma {:induction false} ReduceMaxIsFirstMaximum(vs: seq<SlotResult>) returns (i: nat)
    requires |vs| > 0
    ensures FirstMaximum(vs, i) && vs[i] == ReduceMax(vs)
  {
    var n := |vs|;
    if n == 1 {
      i := 0;
    } else {
      var init := vs[..n - 1];
      i := ReduceMaxIsFirstMaximum(init);
      var c := vs[n - 1];
      assert forall j :: 0 <= j < n - 1 ==> vs[j] == init[j];
      if c.totalAvailable > init[i].totalAvailable {
        i := n - 1;
      }
    }
  }

  /** The strict `<` of the reduction keeps the first of equal instants. */
  lemma {:induction false} ReduceEarliestIsFirstEarliest(vs: seq<SlotResult>) returns (i: nat)
    requires |vs| > 0
    ensures FirstEarliest(vs, i) && vs[i] == ReduceEarliest(vs)
  {
    var n := |vs|;
    if n == 1 {
      i := 0;
    } else {
      var init := vs[..n - 1];
      var m := ReduceEarliestIsFirstEarliest(init);
      var c, min := vs[n - 1], init[m];
      assert forall j :: 0 <= j < n - 1 ==> vs[j] == init[j];
      if InstantBefore(c.date, c.slot, min.date, min.slot) {
        forall j | 0 <= j < n - 1
          ensures InstantBefore(c.date, c.slot, vs[j].date, vs[j].slot)
          ensures !InstantBefore(vs[j].date, vs[j].slot, c.date, c.slot)
        {
          InstantBeforeOrAt(c.date, c.slot, min.date, min.slot, vs[j].date, vs[j].slot);
          if InstantBefore(vs[j].date, vs[j].slot, c.date, c.slot) {
            InstantBeforeTransitive(vs[j].date, vs[j].slot, c.date, c.slot, min.date, min.slot);
          }
        }
        assert !InstantBefore(c.date, c.slot, c.date, c.slot);
        i := n - 1;
      } else {
        i := m;
      }
    }
  }

  /**
   * `mostParticipants` is null exactly when no cell qualifies; otherwise it is
   * the first qualifying cell, in grid order, with the largest `totalAvailable`.
   */
  lemma MostParticipantsIsFirstMaximum(e: Event)
    ensures var a := Analyze(e);
      && (a.mostParticipants.None? <==> a.validDates == [])
      && (a.mostParticipants.Some? ==>
            exists i :: FirstMaximum(a.validDates, i) && a.validDates[i] == a.mostParticipants.value)
  {
    var vs := Analyze(e).validDates;
    if vs != [] {
      var i := ReduceMaxIsFirstMaximum(vs);
    }
  }

  /**
   * `earliest` is null exactly when no cell qualifies; otherwise it is the
   * qualifying cell with the earliest (date, slot) instant, the first one in
   * grid order among equal instants.
   */
  lemma EarliestIsFirstEarliest(e: Event)
    ensures var a := Analyze(e);
      && (a.earliest.None? <==> a.validDates == [])
      && (a.earliest.Some? ==>
            exists i :: FirstEarliest(a.validDates, i) && a.validDates[i] == a.earliest.value)
  {
    var vs := Analyze(e).validDates;
    if vs != [] {
      var i := ReduceEarliestIsFirstEarliest(vs);
    }
  }

  // ---------------------------------------------------------------------
  // What the quorum depends on

  /** Two records that agree on everything except the teacher counts. */
  predicate SameStudentView(x: SlotResult, y: SlotResult) {
    && x.date == y.date && x.slot == y.slot && x.key == y.key
    && x.availableStudents == y.availableStudents && x.totalTargetStudents == y.totalTargetStudents
    && x.studentCondition == y.studentCondition && x.meetsCriteria == y.meetsCriteria
  }

  predicate SameStudentViews(xs: seq<SlotResult>, ys: seq<SlotResult>) {
    |xs| == |ys| && forall k :: 0 <= k < |xs| ==> SameStudentView(xs[k], ys[k])
  }

  lemma RowStudentView(t1: seq<Response>, t2: seq<Response>, students: seq<Response>, date: Day, slots: seq<ClockTime>)
    ensures SameStudentViews(Row(t1, students, date, slots), Row(t2, students, date, slots))
  {
    var r1, r2 := Row(t1, students, date, slots), Row(t2, students, date, slots);
    forall k | 0 <= k < |slots| ensures SameStudentView(r1[k], r2[k]) {
      assert r1[k] == Cell(t1, students, date, slots[k]);
      assert r2[k] == Cell(t2, students, date, slots[k]);
    }
  }

  lemma SameStudentViewsAppend(xs: seq<SlotResult>, ys: seq<SlotResult>, xs': seq<SlotResult>, ys': seq<SlotResult>)
    requires SameStudentViews(xs, ys) && SameStudentViews(xs', ys')
    ensures SameStudentViews(xs + xs', ys + ys')
  {
    forall k | 0 <= k < |xs| + |xs'|
      ensures SameStudentView((xs + xs')[k], (ys + ys')[k])
    {
      if k < |xs| {
        assert (xs + xs')[k] == xs[k] && (ys + ys')[k] == ys[k];
      } else {
        assert (xs + xs')[k] == xs'[k - |xs|] && (ys + ys')[k] == ys'[k - |xs|];
      }
    }
  }

  lemma {:induction false} GridStudentView(t1: seq<Response>, t2: seq<Response>, students: seq<Response>,
                                           dates: seq<Day>, slots: seq<ClockTime>)
    ensures SameStudentViews(Grid(t1, students, dates, slots), Grid(t2, students, dates, slots))
  {
    if dates != [] {
      var init, last := dates[..|dates| - 1], dates[|dates| - 1];
      GridStudentView(t1, t2, students, init, slots);
      RowStudentView(t1, t2, students, last, slots);
      SameStudentViewsAppend(Grid(t1, students, init, slots), Grid(t2, students, init, slots),
                             Row(t1, students, last, slots), Row(t2, students, last, slots));
    }
  }

  lemma {:induction false} ValidResultsStudentView(xs: seq<SlotResult>, ys: seq<SlotResult>)
    requires SameStudentViews(xs, ys)
    ensures SameStudentViews(ValidResults(xs), ValidResults(ys))
  {
    if xs != [] {
      var n := |xs|;
      assert SameStudentViews(xs[..n - 1], ys[..n - 1]);
      ValidResultsStudentView(xs[..n - 1], ys[..n - 1]);
      assert SameStudentView(xs[n - 1], ys[n - 1]);
    }
  }

  /**
   * Teacher availability never affects the gate: two events with the same grid
   * and the same target students give the same qualifying cells, in the same
   * order, whatever their teachers answered.
   */
  lemma TeachersNeverGate(e1: Event, e2: Event)
    requires e1.candidateDates == e2.candidateDates && e1.timeSlots == e2.timeSlots
    requires TargetStudents(Values(e1.responses), e1.targetGrades) == TargetStudents(Values(e2.responses), e2.targetGrades)
    ensures Analyze(e1).studentCount == Analyze(e2).studentCount
    ensures SameStudentViews(Analyze(e1).allResults, Analyze(e2).allResults)
    ensures SameStudentViews(Analyze(e1).validDates, Analyze(e2).validDates)
  {
    var students := TargetStudents(Values(e1.responses), e1.targetGrades);
    var t1, t2 := Teachers(Values(e1.responses)), Teachers(Values(e2.responses));
    GridStudentView(t1, t2, students, e1.candidateDates, e1.timeSlots);
    ValidResultsStudentView(Grid(t1, students, e1.candidateDates, e1.timeSlots),
                            Grid(t2, students, e1.candidateDates, e1.timeSlots));
  }

  /** Replacing or adding an entry that is not a target student keeps the target students. */
  lemma {:induction false} UpsertKeepsTargetStudents(rs: Responses, id: UserId, r: Response, grades: seq<Grade>)
    requires !IsTargetStudent(r, grades)
    requires Lookup(rs, id).Some? ==> !IsTargetStudent(Lookup(rs, id).value, grades)
    ensures TargetStudents(Values(Upsert(rs, id, r)), grades) == TargetStudents(Values(rs), grades)
  {
    if rs == [] {
    } else if rs[0].0 == id {
      assert Values(Upsert(rs, id, r)) == [r] + Values(rs[1..]);
      assert Values(rs) == [rs[0].1] + Values(rs[1..]);
    } else {
      UpsertKeepsTargetStudents(rs[1..], id, r, grades);
      assert Values(Upsert(rs, id, r)) == [rs[0].1] + Values(Upsert(rs[1..], id, r));
      assert Values(rs) == [rs[0].1] + Values(rs[1..]);
    }
  }

  /** Replacing or adding an entry that is not a teacher keeps the teachers. */
  lemma {:induction false} UpsertKeepsTeachers(rs: Responses, id: UserId, r: Response)
    requires r.userRole != Teacher
    requires Lookup(rs, id).Some? ==> Lookup(rs, id).value.userRole != Teacher
    ensures Teachers(Values(Upsert(rs, id, r))) == Teachers(Values(rs))
  {
    if rs == [] {
    } else if rs[0].0 == id {
      assert Values(Upsert(rs, id, r)) == [r] + Values(rs[1..]);
      assert Values(rs) == [rs[0].1] + Values(rs[1..]);
    } else {
      UpsertKeepsTeachers(rs[1..], id, r);
      assert Values(Upsert(rs, id, r)) == [rs[0].1] + Values(Upsert(rs[1..], id, r));
      assert Values(rs) == [rs[0].1] + Values(rs[1..]);
    }
  }

  /**
   * A teacher's response, new or resubmitted, never changes which cells qualify
   * or their student counts.
   */
  lemma TeacherResponseNeverGates(e: Event, id: UserId, r: Response)
    requires r.userRole == Teacher
    requires Lookup(e.responses, id).Some? ==> Lookup(e.responses, id).value.userRole == Teacher
    ensures var e' := e.(responses := Upsert(e.responses, id, r));
      && Analyze(e').studentCount == Analyze(e).studentCount
      && SameStudentViews(Analyze(e').allResults, Analyze(e).allResults)
      && SameStudentViews(Analyze(e').validDates, Analyze(e).validDates)
  {
    UpsertKeepsTargetStudents(e.responses, id, r, e.targetGrades);
    TeachersNeverGate(e.(responses := Upsert(e.responses, id, r)), e);
  }

  /**
   * A student outside the target grades is excluded from all statistics: their
   * response, new or resubmitted, leaves the whole analysis as it was.
   */
  lemma OutsideStudentIgnored(e: Event, id: UserId, r: Response)
    requires r.userRole == Student && !IsTargetStudent(r, e.targetGrades)
    requires Lookup(e.responses, id).Some? ==>
      var previous := Lookup(e.responses, id).value;
      previous.userRole == Student && !IsTargetStudent(previous, e.targetGrades)
    ensures Analyze(e.(responses := Upsert(e.responses, id, r))) == Analyze(e)
  {
    UpsertKeepsTargetStudents(e.responses, id, r, e.targetGrades);
    UpsertKeepsTeachers(e.responses, id, r);
  }

  // ---------------------------------------------------------------------
  // More yes answers never hurt

  /** The target list, its first entry unfolded. */
  lemma TargetStudentsCons(x: Response, rs: seq<Response>, grades: seq<Grade>)
    ensures TargetStudents([x] + rs, grades)
      == (if IsTargetStudent(x, grades) then [x] else []) + TargetStudents(rs, grades)
  {
    assert ([x] + rs)[1..] == rs;
  }

  /**
   * A target student resubmitting with at least the same yes answers leaves the
   * number of target students as it was and lowers no count of yes answers.
   */
  lemma {:induction false} ResubmitCounts(rs: Responses, id: UserId, r: Response, grades: seq<Grade>, key: string)
    requires Lookup(rs, id).Some? && IsTargetStudent(Lookup(rs, id).value, grades) && IsTargetStudent(r, grades)
    requires AnsweredYes(Lookup(rs, id).value, key) ==> AnsweredYes(r, key)
    ensures |TargetStudents(Values(Upsert(rs, id, r)), grades)| == |TargetStudents(Values(rs), grades)|
    ensures CountYes(TargetStudents(Values(rs), grades), key)
      <= CountYes(TargetStudents(Values(Upsert(rs, id, r)), grades), key)
  {
    assert Values(rs) == [rs[0].1] + Values(rs[1..]);
    TargetStudentsCons(rs[0].1, Values(rs[1..]), grades);
    var rest := TargetStudents(Values(rs[1..]), grades);
    if rs[0].0 == id {
      assert Values(Upsert(rs, id, r)) == [r] + Values(rs[1..]);
      TargetStudentsCons(r, Values(rs[1..]), grades);
      assert ([rs[0].1] + rest)[1..] == rest && ([r] + rest)[1..] == rest;
    } else {
      ResubmitCounts(rs[1..], id, r, grades, key);
      assert Values(Upsert(rs, id, r)) == [rs[0].1] + Values(Upsert(rs[1..], id, r));
      var rest' := TargetStudents(Values(Upsert(rs[1..], id, r)), grades);
      TargetStudentsCons(rs[0].1, Values(Upsert(rs[1..], id, r)), grades);
      if IsTargetStudent(rs[0].1, grades) {
        assert ([rs[0].1] + rest)[1..] == rest && ([rs[0].1] + rest')[1..] == rest';
      } else {
        assert [] + rest == rest && [] + rest' == rest';
      }
    }
  }

  /** `ResubmitCounts` for every key at once. */
  lemma ResubmitCountsAll(rs: Responses, id: UserId, r: Response, grades: seq<Grade>)
    requires Lookup(rs, id).Some? && IsTargetStudent(Lookup(rs, id).value, grades) && IsTargetStudent(r, grades)
    requires forall key :: AnsweredYes(Lookup(rs, id).value, key) ==> AnsweredYes(r, key)
    ensures |TargetStudents(Values(Upsert(rs, id, r)), grades)| == |TargetStudents(Values(rs), grades)|
    ensures forall key ::
      CountYes(TargetStudents(Values(rs), grades), key) <= CountYes(TargetStudents(Values(Upsert(rs, id, r)), grades), key)
  {
    ResubmitCounts(rs, id, r, grades, "");
    forall key | true
      ensures CountYes(TargetStudents(Values(rs), grades), key)
        <= CountYes(TargetStudents(Values(Upsert(rs, id, r)), grades), key)
    {
      ResubmitCounts(rs, id, r, grades, key);
    }
  }

  /** The same cell, with at least as many available students and no quorum lost. */
  predicate CellGrew(x: SlotResult, y: SlotResult) {
    && x.date == y.date && x.slot == y.slot && x.key == y.key
    && x.totalTargetStudents == y.totalTargetStudents
    && x.availableStudents <= y.availableStudents
    && (x.meetsCriteria ==> y.meetsCriteria)
  }

  predicate CellsGrew(xs: seq<SlotResult>, ys: seq<SlotResult>) {
    |xs| == |ys| && forall k :: 0 <= k < |xs| ==> CellGrew(xs[k], ys[k])
  }

  /** Every key counts at least as many yes answers in `s2` as in `s1`, over as many students. */
  ghost predicate MoreYes(s1: seq<Response>, s2: seq<Response>) {
    |s1| == |s2| && forall key :: CountYes(s1, key) <= CountYes(s2, key)
  }

  lemma RowGrows(t1: seq<Response>, t2: seq<Response>, s1: seq<Response>, s2: seq<Response>, date: Day, slots: seq<ClockTime>)
    requires MoreYes(s1, s2)
    ensures CellsGrew(Row(t1, s1, date, slots), Row(t2, s2, date, slots))
  {
    var r1, r2 := Row(t1, s1, date, slots), Row(t2, s2, date, slots);
    forall k | 0 <= k < |slots| ensures CellGrew(r1[k], r2[k]) {
      assert r1[k] == Cell(t1, s1, date, slots[k]);
      assert r2[k] == Cell(t2, s2, date, slots[k]);
      assert CountYes(s1, Key(date, slots[k])) <= CountYes(s2, Key(date, slots[k]));
    }
  }

  lemma CellsGrewAppend(xs: seq<SlotResult>, ys: seq<SlotResult>, xs': seq<SlotResult>, ys': seq<SlotResult>)
    requires CellsGrew(xs, ys) && CellsGrew(xs', ys')
    ensures CellsGrew(xs + xs', ys + ys')
  {
    forall k | 0 <= k < |xs| + |xs'|
      ensures CellGrew((xs + xs')[k], (ys + ys')[k])
    {
      if k < |xs| {
        assert (xs + xs')[k] == xs[k] && (ys + ys')[k] == ys[k];
      } else {
        assert (xs + xs')[k] == xs'[k - |xs|] && (ys + ys')[k] == ys'[k - |xs|];
      }
    }
  }

  lemma {:induction false} GridGrows(t1: seq<Response>, t2: seq<Response>, s1: seq<Response>, s2: seq<Response>,
                                     dates: seq<Day>, slots: seq<ClockTime>)
    requires MoreYes(s1, s2)
    ensures CellsGrew(Grid(t1, s1, dates, slots), Grid(t2, s2, dates, slots))
  {
    if dates != [] {
      var init, last := dates[..|dates| - 1], dates[|dates| - 1];
      GridGrows(t1, t2, s1, s2, init, slots);
      RowGrows(t1, t2, s1, s2, last, slots);
      CellsGrewAppend(Grid(t1, s1, init, slots), Grid(t2, s2, init, slots), Row(t1, s1, last, slots), Row(t2, s2, last, slots));
    }
  }

  /**
   * When a target student resubmits keeping every yes and adding more, no cell
   * loses available students, the number of target students stays, and a cell
   * that met the criteria still does.
   */
  lemma MoreYesNeverHurts(e: Event, id: UserId, r: Response)
    requires Lookup(e.responses, id).Some? && IsTargetStudent(Lookup(e.responses, id).value, e.targetGrades)
    requires IsTargetStudent(r, e.targetGrades)
    requires forall key :: AnsweredYes(Lookup(e.responses, id).value, key) ==> AnsweredYes(r, key)
    ensures var e' := e.(responses := Upsert(e.responses, id, r));
      && Analyze(e').studentCount == Analyze(e).studentCount
      && CellsGrew(Analyze(e).allResults, Analyze(e').allResults)
  {
    var rs1, rs2 := Values(e.responses), Values(Upsert(e.responses, id, r));
    ResubmitCountsAll(e.responses, id, r, e.targetGrades);
    GridGrows(Teachers(rs1), Teachers(rs2), TargetStudents(rs1, e.targetGrades), TargetStudents(rs2, e.targetGrades),
              e.candidateDates, e.timeSlots);
  }

  // ---------------------------------------------------------------------
  // The order of the responses does not matter

  /** Where the first of `xs` sits in a rearrangement `ys` of it, and what is left of both. */
  lemma PermutationHead(xs: seq<Response>, ys: seq<Response>) returns (k: nat)
    requires |xs| > 0 && multiset(xs) == multiset(ys)
    ensures k < |ys| && ys[k] == xs[0]
    ensures multiset(xs[1..]) == multiset(ys[..k] + ys[k + 1..])
  {
    assert xs[0] in multiset(xs);
    assert xs[0] in ys;
    k :| 0 <= k < |ys| && ys[k] == xs[0];
    assert xs == [xs[0]] + xs[1..];
    assert ys == ys[..k] + [ys[k]] + ys[k + 1..];
    calc {
      multiset(xs[1..]);
      multiset(xs) - multiset{xs[0]};
      multiset(ys) - multiset{ys[k]};
      multiset(ys[..k] + ys[k + 1..]);
    }
  }

  /** Counting yes answers distributes over concatenation. */
  lemma {:induction false} CountYesAppend(xs: seq<Response>, ys: seq<Response>, key: string)
    ensures CountYes(xs + ys, key) == CountYes(xs, key) + CountYes(ys, key)
  {
    if xs == [] {
      assert xs + ys == ys;
    } else {
      assert (xs + ys)[0] == xs[0] && (xs + ys)[1..] == xs[1..] + ys;
      CountYesAppend(xs[1..], ys, key);
    }
  }

  /** Rearranging a group does not change how many of it said yes. */
  lemma {:induction false} CountYesPermutation(xs: seq<Response>, ys: seq<Response>, key: string)
    requires multiset(xs) == multiset(ys)
    ensures CountYes(xs, key) == CountYes(ys, key)
    decreases |xs|
  {
    if xs != [] {
      var k := PermutationHead(xs, ys);
      CountYesPermutation(xs[1..], ys[..k] + ys[k + 1..], key);
      assert ys == ys[..k] + ([ys[k]] + ys[k + 1..]);
      CountYesAppend(ys[..k], [ys[k]] + ys[k + 1..], key);
      CountYesAppend(ys[..k], ys[k + 1..], key);
      assert ([ys[k]] + ys[k + 1..])[1..] == ys[k + 1..];
    }
  }

  /** Rearranging the responses rearranges the teachers. */
  lemma {:induction false} TeachersPermutation(xs: seq<Response>, ys: seq<Response>)
    requires multiset(xs) == multiset(ys)
    ensures multiset(Teachers(xs)) == multiset(Teachers(ys))
    decreases |xs|
  {
    if xs != [] {
      var k := PermutationHead(xs, ys);
      TeachersPermutation(xs[1..], ys[..k] + ys[k + 1..]);
      assert ys == ys[..k] + ([ys[k]] + ys[k + 1..]);
      TeachersAppend(ys[..k], [ys[k]] + ys[k + 1..]);
      TeachersAppend(ys[..k], ys[k + 1..]);
      TeachersAppend([ys[k]], ys[k + 1..]);
      assert [ys[k]][1..] == [];
    }
  }

  /** Rearranging the responses rearranges the target students. */
  lemma {:induction false} TargetStudentsPermutation(xs: seq<Response>, ys: seq<Response>, grades: seq<Grade>)
    requires multiset(xs) == multiset(ys)
    ensures multiset(TargetStudents(xs, grades)) == multiset(TargetStudents(ys, grades))
    decreases |xs|
  {
    if xs != [] {
      var k := PermutationHead(xs, ys);
      TargetStudentsPermutation(xs[1..], ys[..k] + ys[k + 1..], grades);
      assert ys == ys[..k] + ([ys[k]] + ys[k + 1..]);
      TargetStudentsAppend(ys[..k], [ys[k]] + ys[k + 1..], grades);
      TargetStudentsAppend(ys[..k], ys[k + 1..], grades);
      TargetStudentsAppend([ys[k]], ys[k + 1..], grades);
      assert [ys[k]][1..] == [];
    }
  }

  /** A cell's record depends on its two groups only up to their order. */
  lemma CellPermutation(t1: seq<Response>, t2: seq<Response>, s1: seq<Response>, s2: seq<Response>, date: Day, slot: ClockTime)
    requires multiset(t1) == multiset(t2) && multiset(s1) == multiset(s2)
    ensures Cell(t1, s1, date, slot) == Cell(t2, s2, date, slot)
  {
    CountYesPermutation(t1, t2, Key(date, slot));
    CountYesPermutation(s1, s2, Key(date, slot));
    assert |s1| == |multiset(s1)| == |multiset(s2)| == |s2|;
  }

  /** So does the whole grid. */
  lemma {:induction false} GridPermutation(t1: seq<Response>, t2: seq<Response>, s1: seq<Response>, s2: seq<Response>,
                                           dates: seq<Day>, slots: seq<ClockTime>)
    requires multiset(t1) == multiset(t2) && multiset(s1) == multiset(s2)
    ensures Grid(t1, s1, dates, slots) == Grid(t2, s2, dates, slots)
  {
    if dates != [] {
      GridPermutation(t1, t2, s1, s2, dates[..|dates| - 1], slots);
      var date := dates[|dates| - 1];
      forall j | 0 <= j < |slots|
        ensures Row(t1, s1, date, slots)[j] == Row(t2, s2, date, slots)[j]
      {
        CellPermutation(t1, t2, s1, s2, date, slots[j]);
      }
    }
  }

  /**
   * The analysis of an event does not depend on the order in which its
   * responses were first submitted: two events with the same dates, slots and
   * target grades whose responses are rearrangements of each other are
   * analysed alike.
   */
  lemma AnalyzeIgnoresOrder(e1: Event, e2: Event)
    requires e1.candidateDates == e2.candidateDates && e1.timeSlots == e2.timeSlots
    requires e1.targetGrades == e2.targetGrades
    requires multiset(Values(e1.responses)) == multiset(Values(e2.responses))
    ensures Analyze(e1) == Analyze(e2)
  {
    var rs1, rs2 := Values(e1.responses), Values(e2.responses);
    var t1, t2 := Teachers(rs1), Teachers(rs2);
    var s1, s2 := TargetStudents(rs1, e1.targetGrades), TargetStudents(rs2, e2.targetGrades);
    TeachersPermutation(rs1, rs2);
    TargetStudentsPermutation(rs1, rs2, e1.targetGrades);
    GridPermutation(t1, t2, s1, s2, e1.candidateDates, e1.timeSlots);
    assert |t1| == |multiset(t1)| == |multiset(t2)| == |t2|;
    assert |s1| == |multiset(s1)| == |multiset(s2)| == |s2|;
  }
}
