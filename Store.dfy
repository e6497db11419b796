/**
 * The event list and the user list of the page, and the transformations the
 * page applies to them (pages/index.js:73-87, 94-122, 131-159, 170-274,
 * 367-373). Each handler builds a new list; `EventStore` holds the current
 * lists as the page's state does and replaces them as `setEvents` and
 * `setAllUsers` do. Persistence is not part of this model.
 */
module Store {
  import opened Wrappers
  import opened Calendar
  import opened Text
  import opened Model
  import opened Aggregation

  /** The messages the forms show before giving up. */
  datatype ValidationError = MissingName | NoTargetGrades | NoCandidateDates

  datatype RangeError = MissingBound | StartAfterEnd

  // ---------------------------------------------------------------------
  // Users

  predicate DistinctUserIds(users: seq<User>) {
    forall i, j :: 0 <= i < j < |users| ==> users[i].id != users[j].id
  }

  /**
   * The user `handleRegister` and `handleUpdateProfile` save: the trimmed
   * name, and the grade only for a student. An all-whitespace name is refused.
   */
  function Profile(id: UserId, name: string, role: Role, grade: Grade): (r: Result<User, ValidationError>)
    ensures r.Failure? <==> AllWhitespace(name)
    ensures r.Failure? ==> r.error == MissingName
    ensures r.Success? ==> && r.value.id == id && r.value.role == role
                           && r.value.name == Trim(name) && r.value.name != []
                           && (r.value.grade.Some? <==> role == Student)
                           && (r.value.grade.Some? ==> r.value.grade.value == grade)
  {
    TrimEmpty(name);
    if Trim(name) == [] then Failure(MissingName)
    else Success(User(id, Trim(name), role, if role == Student then Some(grade) else None))
  }

  /** `allUsers.findIndex(u => u.id === id)`. */
  method FindUserIndex(users: seq<User>, id: UserId) returns (index: int)
    ensures -1 <= index < |users|
    ensures index == -1 <==> forall j :: 0 <= j < |users| ==> users[j].id != id
    ensures 0 <= index ==> users[index].id == id && forall j :: 0 <= j < index ==> users[j].id != id
  {
    index := 0;
    while index < |users|
      invariant 0 <= index <= |users|
      invariant forall j :: 0 <= j < index ==> users[j].id != id
    {
      if users[index].id == id {
        return;
      }
      index := index + 1;
    }
    index := -1;
  }

  /** `saveUser`'s new list: the user with the same id is replaced in place, a new id is appended. */
  function UpsertUser(users: seq<User>, user: User): (out: seq<User>)
    ensures user in out
    ensures forall u :: u in out ==> u == user || u in users
    ensures |out| == |users| + (if exists j :: 0 <= j < |users| && users[j].id == user.id then 0 else 1)
    ensures DistinctUserIds(users) ==> DistinctUserIds(out)
  {
    if users == [] then [user]
    else if users[0].id == user.id then [user] + users[1..]
    else
      var rest := UpsertUser(users[1..], user);
      assert (exists j :: 0 <= j < |users| && users[j].id == user.id)
        <==> (exists j :: 0 <= j < |users[1..]| && users[1..][j].id == user.id)
      by {
        forall j | 0 < j < |users| ensures users[j] == users[1..][j - 1] { }
      }
      assert DistinctUserIds(users) ==> forall k :: 0 <= k < |rest| ==> rest[k].id != users[0].id by {
        if DistinctUserIds(users) {
          forall k | 0 <= k < |rest| ensures rest[k].id != users[0].id {
            assert rest[k] in rest;
          }
        }
      }
      [users[0]] + rest
  }

  /** A new id is appended. */
  lemma {:induction false} UpsertUserAppends(users: seq<User>, user: User)
    requires forall j :: 0 <= j < |users| ==> users[j].id != user.id
    ensures UpsertUser(users, user) == users + [user]
  {
    if users != [] {
      assert users[0].id != user.id;
      var tail := users[1..];
      assert forall j :: 0 <= j < |tail| ==> tail[j] == users[j + 1];
      UpsertUserAppends(tail, user);
      assert users == [users[0]] + tail;
    }
  }

  /** A known id is replaced at its first index. */
  lemma {:induction false} UpsertUserReplaces(users: seq<User>, user: User, index: nat)
    requires index < |users| && users[index].id == user.id
    requires forall j :: 0 <= j < index ==> users[j].id != user.id
    ensures UpsertUser(users, user) == users[index := user]
  {
    if index == 0 {
      assert users[0 := user] == [user] + users[1..];
    } else {
      assert users[0].id != user.id;
      var tail := users[1..];
      assert forall j :: 0 <= j < |tail| ==> tail[j] == users[j + 1];
      UpsertUserReplaces(tail, user, index - 1);
      assert users[index := user] == [users[0]] + tail[index - 1 := user];
    }
  }

  /** Replacing at the first index with the user's id, or appending when there is none, is the same upsert. */
  lemma UpsertUserAt(users: seq<User>, user: User, index: int)
    requires -1 <= index < |users|
    requires index == -1 <==> forall j :: 0 <= j < |users| ==> users[j].id != user.id
    requires 0 <= index ==> users[index].id == user.id && forall j :: 0 <= j < index ==> users[j].id != user.id
    ensures UpsertUser(users, user) == if index == -1 then users + [user] else users[index := user]
  {
    if index == -1 {
      UpsertUserAppends(users, user);
    } else {
      UpsertUserReplaces(users, user, index);
    }
  }

  /** Saving a user leaves every other user's entry as it was. */
  lemma {:induction false} UpsertUserKeepsOthers(users: seq<User>, user: User, u: User)
    requires u in users && u.id != user.id
    ensures u in UpsertUser(users, user)
  {
    if users[0] != u {
      UpsertUserKeepsOthers(users[1..], user, u);
    }
  }

  // ---------------------------------------------------------------------
  // The event form

  /** `toggleGrade`: a selected grade is removed, any other is appended. */
  function ToggleGrade(grades: seq<Grade>, g: Grade): (out: seq<Grade>)
    ensures g in out <==> g !in grades
    ensures forall h :: h != g ==> (h in out <==> h in grades)
    ensures g !in grades ==> out == grades + [g]
  {
    if g in grades then RemoveGrade(grades, g) else grades + [g]
  }

  /** `grades.filter(x => x !== g)`. */
  function RemoveGrade(grades: seq<Grade>, g: Grade): (out: seq<Grade>)
    ensures forall h :: h in out <==> h in grades && h != g
    ensures |out| <= |grades|
    ensures g in grades ==> |out| < |grades|
  {
    if grades == [] then []
    else if grades[0] == g then RemoveGrade(grades[1..], g)
    else [grades[0]] + RemoveGrade(grades[1..], g)
  }

  /** Toggling the same grade twice gives back the same selection. */
  lemma ToggleGradeTwice(grades: seq<Grade>, g: Grade)
    ensures forall h :: h in ToggleGrade(ToggleGrade(grades, g), g) <==> h in grades
  {
  }

  /**
   * `generateDatesFromRange`: nothing happens without both bounds; a start
   * after the end is refused; otherwise every day from start to end.
   */
  method GenerateDatesFromRange(dateStart: Option<Day>, dateEnd: Option<Day>) returns (r: Result<seq<Day>, RangeError>)
    ensures (dateStart.None? || dateEnd.None?) ==> r == Failure(MissingBound)
    ensures dateStart.Some? && dateEnd.Some? ==>
      if DateBefore(dateEnd.value, dateStart.value) then r == Failure(StartAfterEnd)
      else r.Success? && r.value == DateRange(dateStart.value, dateEnd.value)
  {
    if dateStart.None? || dateEnd.None? {
      return Failure(MissingBound);
    }
    var start, end := dateStart.value, dateEnd.value;
    if DateBefore(end, start) {
      return Failure(StartAfterEnd);
    }
    var dates: seq<Day> := [];
    var current: Date := start;
    while DateAtMost(current, end)
      invariant WellFormed(current) && DateAtMost(start, current)
      invariant dates + DateRange(current, end) == DateRange(start, end)
      decreases end.year - current.year, 12 - current.month, 31 - current.day
    {
      assert ValidDate(current);
      var next := Succ(current);
      assert DateRange(current, end) == [current] + DateRange(next, end);
      assert (dates + [current]) + DateRange(next, end) == dates + ([current] + DateRange(next, end));
      dates := dates + [current];
      current := next;
    }
    return Success(dates);
  }

  /** The three checks `createEvent` and `updateEvent` make, in their order. */
  function CheckEventForm(name: string, grades: seq<Grade>, dates: seq<Day>): (err: Option<ValidationError>)
    ensures err.None? <==> !AllWhitespace(name) && |grades| > 0 && |dates| > 0
    ensures err == Some(MissingName) <==> AllWhitespace(name)
    ensures err == Some(NoTargetGrades) <==> !AllWhitespace(name) && grades == []
    ensures err == Some(NoCandidateDates) <==> !AllWhitespace(name) && grades != [] && dates == []
  {
    TrimEmpty(name);
    if Trim(name) == [] then Some(MissingName)
    else if |grades| == 0 then Some(NoTargetGrades)
    else if |dates| == 0 then Some(NoCandidateDates)
    else None
  }

  /** `deadline || null`. */
  function DeadlineOrNull(deadline: string): (d: Option<string>)
    ensures d.None? <==> deadline == ""
    ensures d.Some? ==> d.value == deadline
  {
    if deadline == "" then None else Some(deadline)
  }

  // ---------------------------------------------------------------------
  // Events

  /** `createEvent`: a valid form appends one event that nobody has answered yet. */
  function EventsAfterCreate(events: seq<Event>, id: string, name: string, grades: seq<Grade>, dates: seq<Day>,
                       deadline: string, creator: User, createdAt: string): (r: Result<seq<Event>, ValidationError>)
    ensures r.Failure? <==> CheckEventForm(name, grades, dates).Some?
    ensures r.Failure? ==> r.error == CheckEventForm(name, grades, dates).value
    ensures r.Success? ==>
      && |r.value| == |events| + 1 && r.value[..|events|] == events
      && var ev := r.value[|events|];
         && ev.id == id && ev.name == Trim(name) && ev.name != []
         && ev.targetGrades == grades && ev.candidateDates == dates && ev.timeSlots == TimeSlots
         && ev.deadline == DeadlineOrNull(deadline) && ev.responses == []
         && ev.createdBy == creator.id && ev.createdByName == creator.name && ev.createdAt == createdAt
  {
    match CheckEventForm(name, grades, dates)
    case Some(err) => Failure(err)
    case None =>
      TrimEmpty(name);
      var ev := Event(id, Trim(name), grades, dates, TimeSlots, DeadlineOrNull(deadline), [],
                      creator.id, creator.name, createdAt);
      assert (events + [ev])[..|events|] == events;
      Success(events + [ev])
  }

  /** The event as `updateEvent` rewrites it: only the four form fields change. */
  function Patch(ev: Event, name: string, grades: seq<Grade>, dates: seq<Day>, deadline: string): (p: Event)
    ensures p.name == Trim(name) && p.targetGrades == grades && p.candidateDates == dates
    ensures p.deadline == DeadlineOrNull(deadline)
    ensures p.id == ev.id && p.timeSlots == ev.timeSlots && p.responses == ev.responses
    ensures p.createdBy == ev.createdBy && p.createdByName == ev.createdByName && p.createdAt == ev.createdAt
  {
    ev.(name := Trim(name), targetGrades := grades, candidateDates := dates, deadline := DeadlineOrNull(deadline))
  }

  /** `events.map(event => event.id === id ? patched : event)`. */
  function PatchAll(events: seq<Event>, id: string, name: string, grades: seq<Grade>, dates: seq<Day>, deadline: string): (out: seq<Event>)
    ensures |out| == |events|
    ensures forall i :: 0 <= i < |events| ==>
      out[i] == if events[i].id == id then Patch(events[i], name, grades, dates, deadline) else events[i]
  {
    if events == [] then []
    else [if events[0].id == id then Patch(events[0], name, grades, dates, deadline) else events[0]]
         + PatchAll(events[1..], id, name, grades, dates, deadline)
  }

  /**
   * `updateEvent`: a valid form rewrites name, target grades, candidate dates
   * and deadline of every event with the id; id, slots, responses and creator
   * stay, and every other event is untouched.
   */
  function EventsAfterUpdate(events: seq<Event>, id: string, name: string, grades: seq<Grade>, dates: seq<Day>, deadline: string)
    : (r: Result<seq<Event>, ValidationError>)
    ensures r.Failure? <==> CheckEventForm(name, grades, dates).Some?
    ensures r.Failure? ==> r.error == CheckEventForm(name, grades, dates).value
    ensures r.Success? ==> |r.value| == |events| && forall i :: 0 <= i < |events| ==>
      var (before, after) := (events[i], r.value[i]);
      if before.id != id then after == before
      else
        && after.id == before.id && after.timeSlots == before.timeSlots
        && after.responses == before.responses && after.createdBy == before.createdBy
        && after.createdByName == before.createdByName && after.createdAt == before.createdAt
        && after.name == Trim(name) && after.targetGrades == grades
        && after.candidateDates == dates && after.deadline == DeadlineOrNull(deadline)
  {
    match CheckEventForm(name, grades, dates)
    case Some(err) => Failure(err)
    case None => Success(PatchAll(events, id, name, grades, dates, deadline))
  }

  /** The response `submitResponse` stores: a snapshot of the user, the answers, the comment or ''. */
  function FreshResponse(user: User, answers: map<string, bool>, comment: Option<string>): (r: Response)
    ensures r.visitorId == user.id && r.userName == user.name
    ensures r.userRole == user.role && r.userGrade == user.grade
    ensures r.answers == answers && r.comment == comment.GetOr("")
  {
    Response(user.id, user.name, user.role, user.grade, answers, comment.GetOr(""))
  }

  /** `submitResponse`: the user's entry in every event with the id is replaced or added. */
  function EventsAfterSubmit(events: seq<Event>, eventId: string, user: User, answers: map<string, bool>, comment: Option<string>)
    : (out: seq<Event>)
    ensures |out| == |events|
    ensures forall i :: 0 <= i < |events| ==>
      out[i] == if events[i].id == eventId
                then events[i].(responses := Upsert(events[i].responses, user.id, FreshResponse(user, answers, comment)))
                else events[i]
  {
    if events == [] then []
    else
      var ev := events[0];
      [if ev.id == eventId then ev.(responses := Upsert(ev.responses, user.id, FreshResponse(user, answers, comment))) else ev]
      + EventsAfterSubmit(events[1..], eventId, user, answers, comment)
  }

  /**
   * A resubmission supersedes the previous one: afterwards the user's entry has
   * exactly the new answers and comment, every other user's entry is as it
   * was, and every other event is untouched.
   */
  lemma SubmitResponseSupersedes(events: seq<Event>, eventId: string, user: User, answers: map<string, bool>,
                                 comment: Option<string>, i: nat, other: UserId)
    requires i < |events|
    ensures var after := EventsAfterSubmit(events, eventId, user, answers, comment)[i];
      if events[i].id != eventId then after == events[i]
      else
        && after.(responses := events[i].responses) == events[i]
        && Lookup(after.responses, other) ==
             if other == user.id then Some(Response(user.id, user.name, user.role, user.grade, answers, comment.GetOr("")))
             else Lookup(events[i].responses, other)
  {
    if events[i].id == eventId {
      UpsertLookup(events[i].responses, user.id, FreshResponse(user, answers, comment), other);
    }
  }

  /** `events.filter(e => e.id !== id)`. */
  function EventsAfterDelete(events: seq<Event>, id: string): (out: seq<Event>)
    ensures |out| <= |events|
    ensures forall e :: e in out <==> e in events && e.id != id
  {
    if events == [] then []
    else (if events[0].id == id then [] else [events[0]]) + EventsAfterDelete(events[1..], id)
  }

  /** Deleting keeps the order of the remaining events: it distributes over concatenation. */
  lemma {:induction false} DeleteEventAppend(xs: seq<Event>, ys: seq<Event>, id: string)
    ensures EventsAfterDelete(xs + ys, id) == EventsAfterDelete(xs, id) + EventsAfterDelete(ys, id)
  {
    if xs == [] {
      assert xs + ys == ys;
    } else {
      assert (xs + ys)[1..] == xs[1..] + ys;
      DeleteEventAppend(xs[1..], ys, id);
    }
  }

  /** Deleting an id that no event has changes nothing. */
  lemma {:induction false} DeleteAbsentEvent(events: seq<Event>, id: string)
    requires forall e :: e in events ==> e.id != id
    ensures EventsAfterDelete(events, id) == events
  {
    if events != [] {
      assert events[0] in events;
      DeleteAbsentEvent(events[1..], id);
      assert events == [events[0]] + events[1..];
    }
  }

  /** Deleting twice is deleting once. */
  lemma DeleteEventIdempotent(events: seq<Event>, id: string)
    ensures EventsAfterDelete(EventsAfterDelete(events, id), id) == EventsAfterDelete(events, id)
  {
    DeleteAbsentEvent(EventsAfterDelete(events, id), id);
  }

  /** Each entry of a `responses` object is the user's own: its key is the response's `visitorId`. */
  predicate WellKeyed(rs: Responses) {
    DistinctKeys(rs) && forall i :: 0 <= i < |rs| ==> rs[i].1.visitorId == rs[i].0
  }

  lemma {:induction false} SubmitKeepsWellKeyed(rs: Responses, user: User, answers: map<string, bool>, comment: Option<string>)
    requires WellKeyed(rs)
    ensures WellKeyed(Upsert(rs, user.id, FreshResponse(user, answers, comment)))
  {
    if rs != [] && rs[0].0 != user.id {
      SubmitKeepsWellKeyed(rs[1..], user, answers, comment);
    }
  }

  /** A new event has no respondents, so it recommends nothing yet. */
  lemma NewEventRecommendsNothing(events: seq<Event>, id: string, name: string, grades: seq<Grade>, dates: seq<Day>,
                                  deadline: string, creator: User, createdAt: string)
    requires EventsAfterCreate(events, id, name, grades, dates, deadline, creator, createdAt).Success?
    ensures var ev := EventsAfterCreate(events, id, name, grades, dates, deadline, creator, createdAt).value[|events|];
      var a := Analyze(ev);
      && |a.allResults| == |dates| * |TimeSlots|
      && a.teacherCount == 0 && a.studentCount == 0
      && a.validDates == [] && a.mostParticipants.None? && a.earliest.None?
  {
    var ev := EventsAfterCreate(events, id, name, grades, dates, deadline, creator, createdAt).value[|events|];
    assert Values(ev.responses) == [];
    AllResultsLength(ev);
    NoTargetStudentsNoRecommendation(ev);
  }

  /**
   * The page's shared state: the event list, the user list and the signed-in
   * user. Each handler replaces a list with the one its transformation builds.
   */
  class EventStore {
    var events: seq<Event>
    var allUsers: seq<User>
    var currentUser: Option<User>

    /** User ids are unique, and every response sits under its own user's id. */
    ghost predicate Valid()
      reads this
    {
      DistinctUserIds(allUsers) && forall e :: e in events ==> WellKeyed(e.responses)
    }

    constructor ()
      ensures Valid() && events == [] && allUsers == [] && currentUser == None
    {
      events, allUsers, currentUser := [], [], None;
    }

    /** `saveUser`: the user becomes the signed-in user and is upserted into the list by id. */
    method SaveUser(user: User)
      requires Valid()
      modifies this
      ensures Valid()
      ensures currentUser == Some(user) && allUsers == UpsertUser(old(allUsers), user)
      ensures events == old(events)
    {
      currentUser := Some(user);
      var index := FindUserIndex(allUsers, user.id);
      UpsertUserAt(allUsers, user, index);
      if index >= 0 {
        allUsers := allUsers[index := user];
      } else {
        allUsers := allUsers + [user];
      }
    }

    /** `createEvent` by the signed-in user; an invalid form leaves the list as it was. */
    method CreateEvent(id: string, name: string, grades: seq<Grade>, dates: seq<Day>, deadline: string, createdAt: string)
      returns (err: Option<ValidationError>)
      requires Valid() && currentUser.Some?
      modifies this
      ensures Valid() && allUsers == old(allUsers) && currentUser == old(currentUser)
      ensures match EventsAfterCreate(old(events), id, name, grades, dates, deadline, old(currentUser).value, createdAt)
        case Success(es) => err.None? && events == es
        case Failure(e) => err == Some(e) && events == old(events)
    {
      match EventsAfterCreate(events, id, name, grades, dates, deadline, currentUser.value, createdAt)
      case Success(es) =>
        assert es == events + [es[|events|]];
        events, err := es, None;
      case Failure(e) =>
        err := Some(e);
    }

    /** `updateEvent` of the selected event; an invalid form leaves the list as it was. */
    method UpdateEvent(selectedId: string, name: string, grades: seq<Grade>, dates: seq<Day>, deadline: string)
      returns (err: Option<ValidationError>)
      requires Valid()
      modifies this
      ensures Valid() && allUsers == old(allUsers) && currentUser == old(currentUser)
      ensures match EventsAfterUpdate(old(events), selectedId, name, grades, dates, deadline)
        case Success(es) => err.None? && events == es
        case Failure(e) => err == Some(e) && events == old(events)
    {
      match EventsAfterUpdate(events, selectedId, name, grades, dates, deadline)
      case Success(es) =>
        forall e | e in es ensures WellKeyed(e.responses) {
          var i :| 0 <= i < |es| && es[i] == e;
          assert events[i] in events;
        }
        events, err := es, None;
      case Failure(e) =>
        err := Some(e);
    }

    /** `submitResponse` by the signed-in user. */
    method SubmitResponse(eventId: string, answers: map<string, bool>, comment: Option<string>)
      requires Valid() && currentUser.Some?
      modifies this
      ensures Valid() && allUsers == old(allUsers) && currentUser == old(currentUser)
      ensures events == EventsAfterSubmit(old(events), eventId, old(currentUser).value, answers, comment)
    {
      var user := currentUser.value;
      var es := EventsAfterSubmit(events, eventId, user, answers, comment);
      forall e | e in es ensures WellKeyed(e.responses) {
        var i :| 0 <= i < |es| && es[i] == e;
        assert events[i] in events;
        if events[i].id == eventId {
          SubmitKeepsWellKeyed(events[i].responses, user, answers, comment);
        }
      }
      events := es;
    }

    /** `handleDeleteEvent` of the selected event. */
    method DeleteEvent(selectedId: string)
      requires Valid()
      modifies this
      ensures Valid() && allUsers == old(allUsers) && currentUser == old(currentUser)
      ensures events == EventsAfterDelete(old(events), selectedId)
    {
      events := EventsAfterDelete(events, selectedId);
    }
  }
}
