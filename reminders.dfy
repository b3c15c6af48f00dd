/** The widget's reminder store: the `events` array of records
    {id, title, datetimeISO, notified}, the add and delete handlers that
    change it, the time-ordered view, and the once-a-second due check that
    fires each reminder's alert. */
module Reminders {
  import opened JsText
  import Clock

  /** One stored reminder. `at` is the instant its datetimeISO string
      denotes, in milliseconds. */
  datatype Event = Event(id: string, title: string, at: int, notified: bool)

  // ---- The due check ----

  /** A record the due check fires at `now`: not notified yet, and its time
      is at or before `now`. */
  predicate IsDue(e: Event, now: int) {
    !e.notified && e.at <= now
  }

  /** The record as it is once its alert has fired. */
  function Fire(e: Event): (r: Event)
    ensures r.notified && r.id == e.id && r.title == e.title && r.at == e.at
  {
    e.(notified := true)
  }

  /** What the due check does to one record: only the flag can change, and
      it is set afterwards exactly when it was set before or the record's
      time has come. */
  function Mark(e: Event, now: int): (r: Event)
    ensures r.id == e.id && r.title == e.title && r.at == e.at
    ensures r.notified == (e.notified || e.at <= now)
  {
    if IsDue(e, now) then Fire(e) else e
  }

  /** The store after a due check at `now`: the same records in the same
      order with the same ids, titles and times; a record is notified
      afterwards exactly when it was before or its time is not after `now`. */
  function Ticked(evs: seq<Event>, now: int): (r: seq<Event>)
    ensures |r| == |evs|
    ensures forall i :: 0 <= i < |evs| ==>
              r[i].id == evs[i].id && r[i].title == evs[i].title && r[i].at == evs[i].at
              && r[i].notified == (evs[i].notified || evs[i].at <= now)
  {
    if evs == [] then [] else Ticked(evs[..|evs| - 1], now) + [Mark(evs[|evs| - 1], now)]
  }

  /** The alerts a due check at `now` dispatches, in array order: the due
      records, each as it is once marked notified. */
  function Due(evs: seq<Event>, now: int): (r: seq<Event>)
    ensures |r| <= |evs|
  {
    if evs == [] then []
    else
      var last := evs[|evs| - 1];
      Due(evs[..|evs| - 1], now) + (if IsDue(last, now) then [Fire(last)] else [])
  }

  /** An alert is dispatched for a record exactly when that record is due,
      and each dispatched alert is a due record with its flag set. */
  lemma {:induction false} DueMembers(evs: seq<Event>, now: int)
    ensures forall i :: 0 <= i < |evs| && IsDue(evs[i], now) ==> Fire(evs[i]) in Due(evs, now)
    ensures forall e :: e in Due(evs, now) ==>
              exists i :: 0 <= i < |evs| && IsDue(evs[i], now) && e == Fire(evs[i])
  {
    if evs != [] {
      var init, last := evs[..|evs| - 1], evs[|evs| - 1];
      DueMembers(init, now);
      assert forall i :: 0 <= i < |init| ==> init[i] == evs[i];
      forall e | e in Due(evs, now)
        ensures exists i :: 0 <= i < |evs| && IsDue(evs[i], now) && e == Fire(evs[i])
      {
        if e in Due(init, now) {
          var i :| 0 <= i < |init| && IsDue(init[i], now) && e == Fire(init[i]);
          assert evs[i] == init[i];
        } else {
          assert IsDue(last, now) && e == Fire(evs[|evs| - 1]);
        }
      }
    }
  }

  /** The due check visits the array in order: the alerts for a store made
      of two parts are those of the first part followed by those of the
      second, whatever the records' times. */
  lemma {:induction false} DueConcat(a: seq<Event>, b: seq<Event>, now: int)
    ensures Due(a + b, now) == Due(a, now) + Due(b, now)
  {
    if b == [] {
      assert a + b == a;
    } else {
      var ab, init := a + b, b[..|b| - 1];
      assert ab[..|ab| - 1] == a + init;
      assert ab[|ab| - 1] == b[|b| - 1];
      DueConcat(a, init, now);
      var tail := if IsDue(b[|b| - 1], now) then [Fire(b[|b| - 1])] else [];
      calc {
        Due(ab, now);
        Due(a + init, now) + tail;
        Due(a, now) + Due(init, now) + tail;
        Due(a, now) + (Due(init, now) + tail);
      }
    }
  }

  /** Records with distinct ids give alerts with distinct ids. */
  lemma {:induction false} DueDistinct(evs: seq<Event>, now: int)
    requires DistinctIds(evs)
    ensures DistinctIds(Due(evs, now))
  {
    if evs != [] {
      var init, last := evs[..|evs| - 1], evs[|evs| - 1];
      DueDistinct(init, now);
      DueMembers(init, now);
      if IsDue(last, now) {
        var d := Due(init, now);
        forall k | 0 <= k < |d| ensures d[k].id != last.id {
          assert d[k] in d;
          var i :| 0 <= i < |init| && IsDue(init[i], now) && d[k] == Fire(init[i]);
          assert init[i] == evs[i];
        }
      }
    }
  }

  /** Fire-once: right after a due check, a second one at the same instant
      dispatches nothing, and one at any later instant dispatches only
      records that were not yet due at the first. */
  lemma {:induction false} TickAgain(evs: seq<Event>, now: int, later: int)
    ensures Due(Ticked(evs, now), now) == []
    ensures forall e :: e in Due(Ticked(evs, now), later) ==> now < e.at <= later
  {
    var t := Ticked(evs, now);
    NoneDue(t, now);
    DueMembers(t, later);
  }

  /** With no record due, a due check dispatches nothing. */
  lemma {:induction false} NoneDue(evs: seq<Event>, now: int)
    requires forall i :: 0 <= i < |evs| ==> !IsDue(evs[i], now)
    ensures Due(evs, now) == []
  {
    if evs != [] {
      NoneDue(evs[..|evs| - 1], now);
    }
  }

  /** A record already notified is left exactly as it is, and among records
      with distinct ids no alert of the due check is for it. */
  lemma NotifiedNeverFires(evs: seq<Event>, now: int, i: int)
    requires DistinctIds(evs) && 0 <= i < |evs| && evs[i].notified
    ensures Ticked(evs, now)[i] == evs[i]
    ensures forall e :: e in Due(evs, now) ==> e.id != evs[i].id
  {
    DueMembers(evs, now);
  }

  /** One more record examined by the due check. */
  lemma DuePrefix(evs: seq<Event>, i: int, now: int)
    requires 0 <= i < |evs|
    ensures Due(evs[..i + 1], now)
            == Due(evs[..i], now) + (if IsDue(evs[i], now) then [Fire(evs[i])] else [])
  {
    assert evs[..i + 1][..i] == evs[..i];
  }

  /** Marking every record in place gives the ticked store. */
  lemma MarkedIsTicked(evs: seq<Event>, r: seq<Event>, now: int)
    requires |r| == |evs| && forall k :: 0 <= k < |evs| ==> r[k] == Mark(evs[k], now)
    ensures r == Ticked(evs, now)
  {
    var t := Ticked(evs, now);
    assert forall k :: 0 <= k < |evs| ==> r[k] == t[k];
  }

  // ---- Deleting ----

  /** The delete handler's filter: the records whose id differs from `id`. */
  function RemoveId(evs: seq<Event>, id: string): (r: seq<Event>)
    ensures |r| <= |evs|
    ensures forall i :: 0 <= i < |r| ==> r[i].id != id
  {
    if evs == [] then []
    else
      var last := evs[|evs| - 1];
      RemoveId(evs[..|evs| - 1], id) + (if last.id != id then [last] else [])
  }

  /** The records kept are exactly those of the store whose id differs. */
  lemma {:induction false} RemoveMembers(evs: seq<Event>, id: string)
    ensures forall e :: e in RemoveId(evs, id) <==> e in evs && e.id != id
  {
    if evs != [] {
      var init := evs[..|evs| - 1];
      RemoveMembers(init, id);
      assert evs == init + [evs[|evs| - 1]];
    }
  }

  /** Filtering keeps relative order: it works part by part. */
  lemma {:induction false} RemoveConcat(a: seq<Event>, b: seq<Event>, id: string)
    ensures RemoveId(a + b, id) == RemoveId(a, id) + RemoveId(b, id)
  {
    if b == [] {
      assert a + b == a;
    } else {
      var ab, init, last := a + b, b[..|b| - 1], b[|b| - 1];
      assert ab[..|ab| - 1] == a + init;
      assert ab[|ab| - 1] == last;
      RemoveConcat(a, init, id);
      var tail := if last.id != id then [last] else [];
      calc {
        RemoveId(ab, id);
        RemoveId(a + init, id) + tail;
        RemoveId(a, id) + RemoveId(init, id) + tail;
        RemoveId(a, id) + (RemoveId(init, id) + tail);
      }
    }
  }

  /** Deleting an id no record has changes nothing. */
  lemma {:induction false} RemoveAbsent(evs: seq<Event>, id: string)
    requires forall i :: 0 <= i < |evs| ==> evs[i].id != id
    ensures RemoveId(evs, id) == evs
  {
    if evs != [] {
      RemoveAbsent(evs[..|evs| - 1], id);
      assert evs[..|evs| - 1] + [evs[|evs| - 1]] == evs;
    }
  }

  /** Deleting twice is deleting once. */
  lemma RemoveTwice(evs: seq<Event>, id: string)
    ensures RemoveId(RemoveId(evs, id), id) == RemoveId(evs, id)
  {
    RemoveAbsent(RemoveId(evs, id), id);
  }

  /** The filter keeps ids distinct. */
  lemma {:induction false} RemoveDistinct(evs: seq<Event>, id: string)
    requires DistinctIds(evs)
    ensures DistinctIds(RemoveId(evs, id))
  {
    if evs != [] {
      var init, last := evs[..|evs| - 1], evs[|evs| - 1];
      RemoveDistinct(init, id);
      RemoveMembers(init, id);
      var r := RemoveId(init, id);
      forall k | 0 <= k < |r| ensures r[k].id != last.id {
        assert r[k] in r;
        var i :| 0 <= i < |init| && init[i] == r[k];
        assert init[i] == evs[i];
      }
    }
  }

  // ---- The time-ordered view ----

  predicate IsSortedByTime(s: seq<Event>) {
    forall i, j :: 0 <= i < j < |s| ==> s[i].at <= s[j].at
  }

  /** `e` put after every record whose time is not after its own. */
  function InsertByTime(s: seq<Event>, e: Event): (r: seq<Event>)
    ensures |r| == |s| + 1 && multiset(r) == multiset(s) + multiset{e}
    ensures forall x :: x in r ==> x in s || x == e
  {
    if s == [] || s[|s| - 1].at <= e.at then s + [e]
    else
      var init, last := s[..|s| - 1], s[|s| - 1];
      assert s == init + [last];
      InsertByTime(init, e) + [last]
  }

  /** Inserting into a sorted store keeps it sorted. */
  lemma {:induction false} InsertKeepsSorted(s: seq<Event>, e: Event)
    requires IsSortedByTime(s)
    ensures IsSortedByTime(InsertByTime(s, e))
  {
    if s != [] && s[|s| - 1].at > e.at {
      var init, last := s[..|s| - 1], s[|s| - 1];
      InsertKeepsSorted(init, e);
      var r := InsertByTime(init, e);
      forall k | 0 <= k < |r| ensures r[k].at <= last.at {
        assert r[k] in r;
        if r[k] != e {
          var j :| 0 <= j < |init| && init[j] == r[k];
          assert s[j] == init[j];
        }
      }
    }
  }

  /** [...events].sort by time, with a stable sort: insertion in array order. */
  function SortByTime(evs: seq<Event>): (r: seq<Event>)
    ensures IsSortedByTime(r) && multiset(r) == multiset(evs)
  {
    if evs == [] then []
    else
      assert evs == evs[..|evs| - 1] + [evs[|evs| - 1]];
      InsertKeepsSorted(SortByTime(evs[..|evs| - 1]), evs[|evs| - 1]);
      InsertByTime(SortByTime(evs[..|evs| - 1]), evs[|evs| - 1])
  }

  /** The records whose time is `t`, in their order. */
  function AtTime(s: seq<Event>, t: int): seq<Event> {
    if s == [] then []
    else AtTime(s[..|s| - 1], t) + (if s[|s| - 1].at == t then [s[|s| - 1]] else [])
  }

  lemma AtTimeSnoc(s: seq<Event>, e: Event, t: int)
    ensures AtTime(s + [e], t) == AtTime(s, t) + (if e.at == t then [e] else [])
  {
    assert (s + [e])[..|s|] == s;
  }

  /** Inserting into a sorted store puts the new record after every record
      with the same time. */
  lemma {:induction false} AtTimeInsert(s: seq<Event>, e: Event, t: int)
    requires IsSortedByTime(s)
    ensures AtTime(InsertByTime(s, e), t) == AtTime(s, t) + (if e.at == t then [e] else [])
  {
    if s == [] || s[|s| - 1].at <= e.at {
      AtTimeSnoc(s, e, t);
    } else {
      var init, last := s[..|s| - 1], s[|s| - 1];
      AtTimeInsert(init, e, t);
      AtTimeSnoc(InsertByTime(init, e), last, t);
      AtTimeSnoc(init, last, t);
      assert s == init + [last];
    }
  }

  /** Stability: records with equal times keep their array order. */
  lemma {:induction false} SortStable(evs: seq<Event>, t: int)
    ensures AtTime(SortByTime(evs), t) == AtTime(evs, t)
  {
    if evs != [] {
      var init, last := evs[..|evs| - 1], evs[|evs| - 1];
      SortStable(init, t);
      AtTimeInsert(SortByTime(init), last, t);
    }
  }

  // ---- The store ----

  predicate DistinctIds(s: seq<Event>) {
    forall i, j :: 0 <= i < j < |s| ==> s[i].id != s[j].id
  }

  function IdSet(s: seq<Event>): set<string> {
    set e | e in s :: e.id
  }

  /** What the store keeps true, given the log of every alert dispatched so
      far: ids are distinct among the records and among the alerts (no
      reminder fires twice), every title is non-empty, and a record is
      notified exactly when an alert for it has been dispatched. */
  ghost predicate Inv(events: seq<Event>, log: seq<Event>) {
    DistinctIds(events) && DistinctIds(log)
    && forall i :: 0 <= i < |events| ==>
         events[i].title != [] && (events[i].notified <==> events[i].id in IdSet(log))
  }

  /** A due check keeps the invariant, with its alerts added to the log. */
  lemma TickKeepsInv(events: seq<Event>, log: seq<Event>, now: int)
    requires Inv(events, log)
    ensures Inv(Ticked(events, now), log + Due(events, now))
  {
    var t, d := Ticked(events, now), Due(events, now);
    DueMembers(events, now);
    DueDistinct(events, now);
    var all := log + d;
    forall i, j | 0 <= i < j < |all| ensures all[i].id != all[j].id {
      if j >= |log| {
        if i < |log| {
          assert d[j - |log|] in d;
          var k :| 0 <= k < |events| && IsDue(events[k], now) && d[j - |log|] == Fire(events[k]);
          assert log[i] in log;
        }
      }
    }
    forall i | 0 <= i < |t|
      ensures t[i].title != [] && (t[i].notified <==> t[i].id in IdSet(all))
    {
      if IsDue(events[i], now) {
        assert Fire(events[i]) in all;
      } else if events[i].notified {
        var x :| x in log && x.id == events[i].id;
        assert x in all;
      }
    }
  }

  /** Deleting keeps the invariant. */
  lemma DeleteKeepsInv(events: seq<Event>, log: seq<Event>, id: string)
    requires Inv(events, log)
    ensures Inv(RemoveId(events, id), log)
  {
    RemoveDistinct(events, id);
    RemoveMembers(events, id);
    var r := RemoveId(events, id);
    forall i | 0 <= i < |r|
      ensures r[i].title != [] && (r[i].notified <==> r[i].id in IdSet(log))
    {
      assert r[i] in r;
      var k :| 0 <= k < |events| && events[k] == r[i];
    }
  }

  /** Adding an un-notified record with a fresh id and a title keeps the invariant. */
  lemma AddKeepsInv(events: seq<Event>, log: seq<Event>, e: Event)
    requires Inv(events, log)
    requires e.id !in IdSet(events) && e.id !in IdSet(log) && e.title != [] && !e.notified
    ensures Inv(events + [e], log)
  {
    var s := events + [e];
    forall i, j | 0 <= i < j < |s| ensures s[i].id != s[j].id {
      if j == |events| {
        assert events[i] in events;
      }
    }
  }

  /** How the add handler ended. */
  datatype AddOutcome =
    | Added
      /** The trimmed title, the date, the hour, the minute or AM/PM was empty. */
    | MissingDetails
      /** The hour or minute could not be parsed, so the Date is invalid and
          toISOString throws before anything is stored. */
    | InvalidTime
      /** The page has no Notification global: evaluating it raises a
          ReferenceError before anything is stored. */
    | NoNotificationApi

  /** The form's check: each of these values is an empty string. */
  predicate MissingDetail(title: string, date: string, hour: string, minute: string, ampm: string) {
    title == [] || date == [] || hour == [] || minute == [] || ampm == []
  }

  class Scheduler {
    /** The `events` array, in insertion order. */
    var events: seq<Event>
    /** Every alert dispatched so far, in order. */
    ghost var log: seq<Event>

    ghost predicate Valid()
      reads this
    {
      Inv(events, log)
    }

    constructor ()
      ensures Valid() && events == [] && log == []
    {
      events := [];
      log := [];
    }

    /** The add handler. `dayStart` is the instant at which the chosen date
        begins locally and `id` the generated id, which must not belong to
        a stored record nor to one that has already fired.
        `notificationApi` says whether the browser defines Notification. */
    method Add(titleInput: string, date: string, hour: string, minute: string, ampm: string,
               notificationApi: bool, id: string, dayStart: int) returns (outcome: AddOutcome)
      requires Valid()
      requires id !in IdSet(events) && id !in IdSet(log)
      modifies this
      ensures Valid() && log == old(log)
      ensures var title := Trim(titleInput);
              var t := Clock.EventInstant(dayStart, Clock.TimeFields(hour, minute, ampm));
              if MissingDetail(title, date, hour, minute, ampm) then
                outcome == MissingDetails && events == old(events)
              else if !notificationApi then
                outcome == NoNotificationApi && events == old(events)
              else if t.None? then
                outcome == InvalidTime && events == old(events)
              else
                outcome == Added && events == old(events) + [Event(id, title, t.value, false)]
    {
      var title := Trim(titleInput);
      if MissingDetail(title, date, hour, minute, ampm) {
        return MissingDetails;
      }
      if !notificationApi {
        return NoNotificationApi;
      }
      var t := Clock.EventInstant(dayStart, Clock.TimeFields(hour, minute, ampm));
      if t.None? {
        return InvalidTime;
      }
      AddKeepsInv(events, log, Event(id, title, t.value, false));
      events := events + [Event(id, title, t.value, false)];
      outcome := Added;
    }

    /** The delete button's handler. */
    method Delete(id: string)
      requires Valid()
      modifies this
      ensures Valid() && log == old(log)
      ensures events == RemoveId(old(events), id)
    {
      DeleteKeepsInv(events, log, id);
      events := RemoveId(events, id);
    }

    /** The order renderEvents lists the records in: sorted by time, a
        permutation of the store, records with equal times in array order.
        The store itself is left as it is. */
    method View() returns (sorted: seq<Event>)
      ensures IsSortedByTime(sorted) && multiset(sorted) == multiset(events)
      ensures forall t :: AtTime(sorted, t) == AtTime(events, t)
    {
      sorted := SortByTime(events);
      forall t ensures AtTime(sorted, t) == AtTime(events, t) {
        SortStable(events, t);
      }
    }

    /** checkDueEvents: walk the array in order; a record not yet notified
        whose time has come is marked notified and then its alert is
        dispatched. Returns the dispatched alerts, in order. */
    method Tick(now: int) returns (fired: seq<Event>)
      requires Valid()
      modifies this
      ensures Valid()
      ensures events == Ticked(old(events), now)
      ensures fired == Due(old(events), now) && log == old(log) + fired
    {
      ghost var before := events;
      fired := [];
      var i := 0;
      while i < |events|
        invariant 0 <= i <= |events| == |before|
        invariant forall k :: 0 <= k < i ==> events[k] == Mark(before[k], now)
        invariant forall k :: i <= k < |events| ==> events[k] == before[k]
        invariant fired == Due(before[..i], now)
        invariant log == old(log) + fired
      {
        DuePrefix(before, i, now);
        var ev := events[i];
        assert ev == before[i];
        if !ev.notified {
          if now >= ev.at {
            ev := Fire(ev);
            assert ev == Mark(before[i], now);
            events := events[i := ev];
            fired := fired + [ev];
            log := log + [ev];
          }
        }
        i := i + 1;
      }
      assert before[..i] == before;
      MarkedIsTicked(before, events, now);
      TickKeepsInv(before, old(log), now);
    }
  }
}
