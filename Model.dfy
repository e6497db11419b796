/**
 * The values the scheduler works on: users, their responses to an event, and
 * events (pages/index.js:27-33, 99-104, 184-195, 259-266).
 */
module Model {
  import opened Wrappers
  import opened Calendar

  datatype Role = Teacher | Student

  /** The grades a student may declare (`grades`, pages/index.js:27), in the order the forms list them. */
  datatype Grade = B3 | B4 | M1 | M2 | D1 | D2 | D3

  /** The fixed half-hour slots 09:00 .. 18:00 that every event offers. */
  const TimeSlots: seq<ClockTime> := [
    Time(9, 0), Time(9, 30), Time(10, 0), Time(10, 30), Time(11, 0), Time(11, 30),
    Time(12, 0), Time(12, 30), Time(13, 0), Time(13, 30), Time(14, 0), Time(14, 30),
    Time(15, 0), Time(15, 30), Time(16, 0), Time(16, 30), Time(17, 0), Time(17, 30),
    Time(18, 0)]

  type UserId = string

  /** A registered member; `grade` is given for students and null for teachers. */
  datatype User = User(id: UserId, name: string, role: Role, grade: Option<Grade>)

  /**
   * One user's answer to an event. Name, role and grade are copied from the
   * user at submission time; `answers` maps slot keys to yes/no.
   */
  datatype Response = Response(
    visitorId: UserId,
    userName: string,
    userRole: Role,
    userGrade: Option<Grade>,
    answers: map<string, bool>,
    comment: string)

  /**
   * The `responses` object of an event: entries in the order their keys were
   * first added. A JavaScript object keeps that order for keys that are not
   * array indices; user ids are `Date.now()` strings of 13 digits, above
   * 2^32 - 2, so they never are. The analysis does not depend on the order
   * anyway (`Aggregation.AnalyzeIgnoresOrder`).
   */
  type Responses = seq<(UserId, Response)>

  datatype Event = Event(
    id: string,
    name: string,
    targetGrades: seq<Grade>,
    candidateDates: seq<Day>,
    timeSlots: seq<ClockTime>,
    deadline: Option<string>,
    responses: Responses,
    createdBy: UserId,
    createdByName: string,
    createdAt: string)

  /** The 19 slots run from 09:00 to 18:00 in steps of 30 minutes. */
  lemma TimeSlotsCanonical()
    ensures |TimeSlots| == 19
    ensures forall i :: 0 <= i < 19 ==>
      TimeSlots[i].hour * 60 + TimeSlots[i].minute == 540 + 30 * i
  {
  }

  /** `Object.keys(responses)`. */
  function Keys(rs: Responses): (ks: seq<UserId>)
    ensures |ks| == |rs|
    ensures forall i :: 0 <= i < |rs| ==> ks[i] == rs[i].0
  {
    if rs == [] then [] else [rs[0].0] + Keys(rs[1..])
  }

  /** `Object.values(responses)`. */
  function Values(rs: Responses): (vs: seq<Response>)
    ensures |vs| == |rs|
    ensures forall i :: 0 <= i < |rs| ==> vs[i] == rs[i].1
  {
    if rs == [] then [] else [rs[0].1] + Values(rs[1..])
  }

  /** No key occurs twice: what makes a list of entries an object. */
  predicate DistinctKeys(rs: Responses) {
    forall i, j :: 0 <= i < j < |rs| ==> rs[i].0 != rs[j].0
  }

  /** `responses[id]`. */
  function Lookup(rs: Responses, id: UserId): (r: Option<Response>)
    ensures r.None? <==> id !in Keys(rs)
    ensures r.Some? ==> (id, r.value) in rs
  {
    if rs == [] then None
    else if rs[0].0 == id then Some(rs[0].1)
    else Lookup(rs[1..], id)
  }

  /**
   * `{...responses, [id]: r}`: an existing key keeps its place and gets the new
   * value; a new key is added at the end.
   */
  function Upsert(rs: Responses, id: UserId, r: Response): (out: Responses)
    ensures Keys(out) == if id in Keys(rs) then Keys(rs) else Keys(rs) + [id]
    ensures id !in Keys(rs) ==> out == rs + [(id, r)]
  {
    if rs == [] then [(id, r)]
    else if rs[0].0 == id then [(id, r)] + rs[1..]
    else [rs[0]] + Upsert(rs[1..], id, r)
  }

  /** On an object (distinct keys) an upsert keeps the keys distinct and changes only the entry for `id`. */
  lemma {:induction false} UpsertKeepsKeysDistinct(rs: Responses, id: UserId, r: Response)
    requires DistinctKeys(rs)
    ensures DistinctKeys(Upsert(rs, id, r))
    ensures forall i :: 0 <= i < |rs| ==> Upsert(rs, id, r)[i] == if rs[i].0 == id then (id, r) else rs[i]
  {
    if rs != [] && rs[0].0 != id {
      var tail := rs[1..];
      assert DistinctKeys(tail);
      UpsertKeepsKeysDistinct(tail, id, r);
      var rest := Upsert(tail, id, r);
      var out := Upsert(rs, id, r);
      assert out == [rs[0]] + rest;
      assert rs[0].0 !in Keys(tail) by {
        forall k | 0 <= k < |tail| ensures Keys(tail)[k] != rs[0].0 {
          assert tail[k] == rs[k + 1];
        }
      }
      forall k | 0 <= k < |rest| ensures rest[k].0 != rs[0].0 {
        assert rest[k].0 == Keys(rest)[k];
      }
      forall a, b | 0 <= a < b < |out| ensures out[a].0 != out[b].0 {
        assert out[b] == rest[b - 1];
        if a > 0 {
          assert out[a] == rest[a - 1];
        }
      }
    }
  }

  /** After an upsert the key holds the new value and every other key its old one. */
  lemma {:induction false} UpsertLookup(rs: Responses, id: UserId, r: Response, other: UserId)
    ensures Lookup(Upsert(rs, id, r), other) == if other == id then Some(r) else Lookup(rs, other)
  {
    if rs != [] && rs[0].0 != id {
      UpsertLookup(rs[1..], id, r, other);
    }
  }
}
