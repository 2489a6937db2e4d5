/**
 * The alarm records of the service (voicerec.py): the `Alarm` table, the
 * `active_timers` dictionary, `create_alarm`, `cancel_alarm`, and the filter
 * and ordering that `show_alarms` asks of the table.
 *
 * The table is a map from alarm id to record. Ids are SQLite row ids: they
 * start at 1 and a new row takes the next one (the service never deletes a
 * row, so "largest id + 1" and a counter agree).
 */
module AlarmStore {
  import opened Wrappers
  import opened TimeText

  const ACTIVE: string := "active"
  const CANCELLED: string := "cancelled"

  /** A row of the `Alarm` table; its id is the key it is stored under. `created_at` is left out. */
  datatype Alarm = Alarm(userId: int, time: string, status: string)

  /** One entry of the list `show_alarms` returns. */
  datatype AlarmView = AlarmView(id: nat, time: string, status: string)

  /** A `threading.Timer` held in `active_timers`; only its presence matters here. */
  datatype TimerHandle = TimerHandle(handle: nat)

  /** The three dictionaries `create_alarm` returns. */
  datatype CreateOutcome =
    | Created(alarmId: nat, alarmTime: string)   // "Alarm set"
    | InvalidTimeFormat                          // "Invalid time format"
    | AlreadyActive(alarmId: nat)                // "Active alarm already exists"

  /** The two dictionaries `cancel_alarm` returns. */
  datatype CancelOutcome =
    | Cancelled(alarmId: nat)                    // "Alarm cancelled"
    | NotFound(alarmId: nat)                     // "Alarm not found"

  /** The row matches `filter_by(user_id=userId, time=time, status='active')`. */
  predicate IsActiveFor(a: Alarm, userId: int, time: string) {
    a.userId == userId && a.time == time && a.status == ACTIVE
  }

  /** At most one active alarm per user and stored time. */
  ghost predicate UniqueActive(alarms: map<nat, Alarm>) {
    forall i, j ::
      i in alarms && j in alarms && IsActiveFor(alarms[i], alarms[j].userId, alarms[j].time) && alarms[j].status == ACTIVE
      ==> i == j
  }

  /** Adding an active row under a fresh id keeps active alarms unique when no row matches it. */
  lemma AddActiveKeepsUnique(alarms: map<nat, Alarm>, id: nat, a: Alarm)
    requires UniqueActive(alarms) && id !in alarms && a.status == ACTIVE
    requires forall k :: k in alarms ==> !IsActiveFor(alarms[k], a.userId, a.time)
    ensures UniqueActive(alarms[id := a])
  {
    var m := alarms[id := a];
    forall i, j | i in m && j in m && IsActiveFor(m[i], m[j].userId, m[j].time) && m[j].status == ACTIVE
      ensures i == j
    {
      if i != id && j != id {
        assert IsActiveFor(alarms[i], alarms[j].userId, alarms[j].time);
      }
    }
  }

  /** Cancelling a row keeps active alarms unique. */
  lemma CancelKeepsUnique(alarms: map<nat, Alarm>, id: nat)
    requires UniqueActive(alarms) && id in alarms
    ensures UniqueActive(alarms[id := alarms[id].(status := CANCELLED)])
  {
    var m := alarms[id := alarms[id].(status := CANCELLED)];
    forall i, j | i in m && j in m && IsActiveFor(m[i], m[j].userId, m[j].time) && m[j].status == ACTIVE
      ensures i == j
    {
      assert i != id && j != id;
      assert IsActiveFor(alarms[i], alarms[j].userId, alarms[j].time);
    }
  }

  /**
   * `Alarm.query.filter_by(user_id=userId, time=time, status='active').first()`
   * over the ids below `bound`, in id order.
   */
  function FindActive(alarms: map<nat, Alarm>, userId: int, time: string, bound: nat): (r: Option<nat>)
    ensures r.Some? ==> r.value < bound && r.value in alarms && IsActiveFor(alarms[r.value], userId, time)
    ensures r.Some? ==> forall k :: k in alarms && k < r.value ==> !IsActiveFor(alarms[k], userId, time)
    ensures r.None? ==> forall k :: k in alarms && k < bound ==> !IsActiveFor(alarms[k], userId, time)
    decreases bound
  {
    if bound == 0 then None
    else
      var earlier := FindActive(alarms, userId, time, bound - 1);
      if earlier.Some? then earlier
      else if bound - 1 in alarms && IsActiveFor(alarms[bound - 1], userId, time) then Some(bound - 1)
      else None
  }

  // ---------------------------------------------------------------------------
  // Ordering by the stored time string
  // ---------------------------------------------------------------------------

  /**
   * `ORDER BY time ASC` under SQLite's default BINARY collation: the texts
   * compared character by character (UTF-8 byte order is code-point order),
   * a proper prefix first.
   */
  predicate TextLe(a: string, b: string)
    decreases |a|
  {
    |a| == 0 || (|b| > 0 && (a[0] < b[0] || (a[0] == b[0] && TextLe(a[1..], b[1..]))))
  }

  lemma {:induction false} TextLeTotal(a: string, b: string)
    ensures TextLe(a, b) || TextLe(b, a)
    decreases |a|
  {
    if |a| > 0 && |b| > 0 && a[0] == b[0] {
      TextLeTotal(a[1..], b[1..]);
    }
  }

  lemma {:induction false} TextLeTransitive(a: string, b: string, c: string)
    requires TextLe(a, b) && TextLe(b, c)
    ensures TextLe(a, c)
    decreases |a|
  {
    if |a| > 0 && a[0] == b[0] && b[0] == c[0] {
      TextLeTransitive(a[1..], b[1..], c[1..]);
    }
  }

  lemma {:induction false} TextLeAntisymmetric(a: string, b: string)
    requires TextLe(a, b) && TextLe(b, a)
    ensures a == b
    decreases |a|
  {
    if |a| > 0 {
      TextLeAntisymmetric(a[1..], b[1..]);
      assert a == [a[0]] + a[1..] && b == [b[0]] + b[1..];
    }
  }

  predicate SortedByTime(s: seq<AlarmView>) {
    forall i, j :: 0 <= i < j < |s| ==> TextLe(s[i].time, s[j].time)
  }

  predicate DistinctIds(s: seq<AlarmView>) {
    forall i, j :: 0 <= i < j < |s| ==> s[i].id != s[j].id
  }

  /** Places `x` into a list, before the first entry whose time is not below it. */
  function InsertByTime(x: AlarmView, s: seq<AlarmView>): (r: seq<AlarmView>)
    ensures multiset(r) == multiset(s) + multiset{x}
    decreases |s|
  {
    if |s| == 0 || TextLe(x.time, s[0].time) then [x] + s
    else
      assert s == [s[0]] + s[1..];
      [s[0]] + InsertByTime(x, s[1..])
  }

  /** Inserting into a sorted list keeps it sorted. */
  lemma {:induction false} InsertKeepsSorted(x: AlarmView, s: seq<AlarmView>)
    requires SortedByTime(s)
    ensures SortedByTime(InsertByTime(x, s))
    decreases |s|
  {
    var r := InsertByTime(x, s);
    if |s| == 0 || TextLe(x.time, s[0].time) {
      forall i, j | 0 <= i < j < |r| ensures TextLe(r[i].time, r[j].time) {
        if i == 0 && j > 1 {
          TextLeTransitive(x.time, s[0].time, s[j - 1].time);
        }
      }
    } else {
      TextLeTotal(x.time, s[0].time);
      var tail := InsertByTime(x, s[1..]);
      InsertKeepsSorted(x, s[1..]);
      forall i, j | 0 <= i < j < |r| ensures TextLe(r[i].time, r[j].time) {
        if i == 0 {
          assert r[j] == tail[j - 1];
          assert r[j] in multiset(s[1..]) + multiset{x};
        }
      }
    }
  }

  /** Inserting an entry with a new id into a list with distinct ids keeps the ids distinct. */
  lemma {:induction false} InsertKeepsDistinct(x: AlarmView, s: seq<AlarmView>)
    requires DistinctIds(s) && forall e :: e in s ==> e.id != x.id
    ensures DistinctIds(InsertByTime(x, s))
    decreases |s|
  {
    var r := InsertByTime(x, s);
    if |s| == 0 || TextLe(x.time, s[0].time) {
      assert forall j :: 0 < j < |r| ==> r[j] == s[j - 1];
    } else {
      var tail := InsertByTime(x, s[1..]);
      InsertKeepsDistinct(x, s[1..]);
      forall i, j | 0 <= i < j < |r| ensures r[i].id != r[j].id {
        if i == 0 {
          assert r[j] == tail[j - 1];
          assert r[j] in multiset(s[1..]) + multiset{x};
        }
      }
    }
  }

  /** Insertion sort by stored time; entries with equal times keep their order. */
  function SortByTime(s: seq<AlarmView>): (r: seq<AlarmView>)
    ensures multiset(r) == multiset(s)
    decreases |s|
  {
    if |s| == 0 then []
    else
      assert s == [s[0]] + s[1..];
      InsertByTime(s[0], SortByTime(s[1..]))
  }

  /** The sort yields a list ordered ascending by stored time. */
  lemma {:induction false} SortByTimeSorted(s: seq<AlarmView>)
    ensures SortedByTime(SortByTime(s))
    decreases |s|
  {
    if |s| > 0 {
      SortByTimeSorted(s[1..]);
      InsertKeepsSorted(s[0], SortByTime(s[1..]));
    }
  }

  /** The sort keeps distinct ids distinct. */
  lemma {:induction false} SortByTimeDistinct(s: seq<AlarmView>)
    requires DistinctIds(s)
    ensures DistinctIds(SortByTime(s))
    decreases |s|
  {
    if |s| > 0 {
      SortByTimeDistinct(s[1..]);
      var rest := SortByTime(s[1..]);
      forall e | e in rest ensures e.id != s[0].id {
        assert e in multiset(s[1..]);
        var k :| 0 <= k < |s[1..]| && s[1..][k] == e;
        assert s[k + 1] == e;
      }
      InsertKeepsDistinct(s[0], rest);
    }
  }

  // ---------------------------------------------------------------------------
  // show_alarms
  // ---------------------------------------------------------------------------

  /** The row passes `filter_by(user_id=userId).filter(Alarm.status != 'cancelled')`. */
  predicate Listed(a: Alarm, userId: int) {
    a.userId == userId && a.status != CANCELLED
  }

  /** The dictionary built for one row. */
  function ViewOf(id: nat, a: Alarm): AlarmView {
    AlarmView(id, a.time, a.status)
  }

  /** The listed rows with an id below `bound`, in id order. */
  function CollectListed(alarms: map<nat, Alarm>, userId: int, bound: nat): (r: seq<AlarmView>)
    ensures forall i :: 0 <= i < |r| ==> r[i].id < bound && r[i].id in alarms
                                          && Listed(alarms[r[i].id], userId) && r[i] == ViewOf(r[i].id, alarms[r[i].id])
    ensures forall id :: id in alarms && id < bound && Listed(alarms[id], userId) ==> ViewOf(id, alarms[id]) in r
    ensures DistinctIds(r)
    decreases bound
  {
    if bound == 0 then []
    else
      var earlier := CollectListed(alarms, userId, bound - 1);
      var id := bound - 1;
      if id in alarms && Listed(alarms[id], userId) then earlier + [ViewOf(id, alarms[id])] else earlier
  }

  /** The sorted listing holds exactly the listed rows below `bound`, each once, in time order. */
  lemma ListingSpec(alarms: map<nat, Alarm>, userId: int, bound: nat)
    ensures var r := SortByTime(CollectListed(alarms, userId, bound));
      && (forall i :: 0 <= i < |r| ==> r[i].id < bound && r[i].id in alarms && Listed(alarms[r[i].id], userId)
                                         && r[i] == ViewOf(r[i].id, alarms[r[i].id]))
      && (forall id :: id in alarms && id < bound && Listed(alarms[id], userId) ==> ViewOf(id, alarms[id]) in r)
      && DistinctIds(r)
      && SortedByTime(r)
  {
    var listed := CollectListed(alarms, userId, bound);
    SortByTimeSorted(listed);
    SortByTimeDistinct(listed);
    var r := SortByTime(listed);
    forall i | 0 <= i < |r|
      ensures r[i].id < bound && r[i].id in alarms && Listed(alarms[r[i].id], userId)
      ensures r[i] == ViewOf(r[i].id, alarms[r[i].id])
    {
      assert r[i] in multiset(listed);
      var k :| 0 <= k < |listed| && listed[k] == r[i];
    }
    forall id | id in alarms && id < bound && Listed(alarms[id], userId)
      ensures ViewOf(id, alarms[id]) in r
    {
      assert ViewOf(id, alarms[id]) in multiset(r);
    }
  }

  // ---------------------------------------------------------------------------
  // The store
  // ---------------------------------------------------------------------------

  /** The `Alarm` table, the next row id, and the global `active_timers` dictionary. */
  class AlarmDb {
    var alarms: map<nat, Alarm>
    var nextId: nat
    var activeTimers: map<nat, TimerHandle>

    /** Row ids are below the next id; at most one active alarm per user and time. */
    ghost predicate Valid()
      reads this
    {
      1 <= nextId
      && (forall id :: id in alarms ==> 1 <= id < nextId)
      && UniqueActive(alarms)
    }

    /** An empty table with no timers. */
    constructor ()
      ensures Valid()
      ensures alarms == map[] && nextId == 1 && activeTimers == map[]
    {
      alarms := map[];
      nextId := 1;
      activeTimers := map[];
    }

    /**
     * `create_alarm`: the time is standardized first; only an empty result is
     * rejected, so a time that does not parse is stored as given. A second
     * active alarm for the same user and stored time is refused with the id
     * of the existing one. The timers are not touched.
     */
    method CreateAlarm(userId: int, alarmTime: string) returns (r: CreateOutcome)
      requires Valid()
      modifies this
      ensures Valid()
      ensures activeTimers == old(activeTimers)
      ensures r == InvalidTimeFormat <==> alarmTime == ""
      ensures r.AlreadyActive? <==>
                alarmTime != "" && exists k :: k in old(alarms) && IsActiveFor(old(alarms)[k], userId, StandardizeTimeFormat(alarmTime))
      ensures r.AlreadyActive? ==>
                r.alarmId in old(alarms) && IsActiveFor(old(alarms)[r.alarmId], userId, StandardizeTimeFormat(alarmTime))
      ensures !r.Created? ==> alarms == old(alarms) && nextId == old(nextId)
      ensures r.Created? ==>
                r.alarmId == old(nextId) && r.alarmId !in old(alarms)
                && r.alarmTime == StandardizeTimeFormat(alarmTime)
                && alarms == old(alarms)[r.alarmId := Alarm(userId, r.alarmTime, ACTIVE)]
                && nextId == old(nextId) + 1
    {
      var formatted := StandardizeTimeFormat(alarmTime);
      StandardizeEmptyOnlyForEmpty(alarmTime);
      if formatted == "" {
        return InvalidTimeFormat;
      }
      var existing := FindActive(alarms, userId, formatted, nextId);
      if existing.Some? {
        assert IsActiveFor(alarms[existing.value], userId, formatted);
        return AlreadyActive(existing.value);
      }
      var id := nextId;
      AddActiveKeepsUnique(alarms, id, Alarm(userId, formatted, ACTIVE));
      alarms := alarms[id := Alarm(userId, formatted, ACTIVE)];
      nextId := nextId + 1;
      return Created(id, formatted);
    }

    /**
     * `cancel_alarm`: the timer entry for the id is dropped whether or not the
     * alarm exists; an existing alarm is marked cancelled whatever its status
     * was, and no other row changes.
     */
    method CancelAlarm(alarmId: nat) returns (r: CancelOutcome)
      requires Valid()
      modifies this
      ensures Valid()
      ensures activeTimers == old(activeTimers) - {alarmId}
      ensures nextId == old(nextId)
      ensures alarmId in old(alarms) ==>
                r == Cancelled(alarmId)
                && alarms == old(alarms)[alarmId := old(alarms)[alarmId].(status := CANCELLED)]
      ensures alarmId !in old(alarms) ==> r == NotFound(alarmId) && alarms == old(alarms)
    {
      if alarmId in activeTimers {
        activeTimers := activeTimers - {alarmId};
      }
      if alarmId in alarms {
        CancelKeepsUnique(alarms, alarmId);
        alarms := alarms[alarmId := alarms[alarmId].(status := CANCELLED)];
        return Cancelled(alarmId);
      }
      return NotFound(alarmId);
    }

    /**
     * The list `show_alarms` returns: exactly the user's alarms that are not
     * cancelled, each once, ascending by the stored time string.
     */
    function ShowAlarms(userId: int): (r: seq<AlarmView>)
      reads this
      requires Valid()
      ensures forall i :: 0 <= i < |r| ==> r[i].id in alarms && Listed(alarms[r[i].id], userId)
                                            && r[i] == ViewOf(r[i].id, alarms[r[i].id])
      ensures forall id :: id in alarms && Listed(alarms[id], userId) ==> ViewOf(id, alarms[id]) in r
      ensures DistinctIds(r)
      ensures SortedByTime(r)
    {
      ListingSpec(alarms, userId, nextId);
      SortByTime(CollectListed(alarms, userId, nextId))
    }
  }

  /** The listing orders by text, not by clock: `"10:00 AM"` comes before `"9:00 AM"`. */
  lemma ListingIsTextualNotChronological()
    ensures SortByTime([AlarmView(1, "9:00 AM", ACTIVE), AlarmView(2, "10:00 AM", ACTIVE)])
         == [AlarmView(2, "10:00 AM", ACTIVE), AlarmView(1, "9:00 AM", ACTIVE)]
  {
    var nine := AlarmView(1, "9:00 AM", ACTIVE);
    var ten := AlarmView(2, "10:00 AM", ACTIVE);
    assert TextLe(ten.time, nine.time);
    assert !TextLe(nine.time, ten.time);
    assert [nine, ten][1..] == [ten];
    assert SortByTime([ten]) == [ten];
  }

  /**
   * A client scenario: an alarm typed in 24-hour form blocks a second one for the
   * same user and the same time typed in its stored 12-hour form.
   */
  method DuplicateAcrossFormats(userId: int, t: TimeOfDay)
    requires ValidTime(t)
  {
    SameStoredFormFor24And12(t);
    var stored := Canonical12(t);
    assert Format24(t) != "" && stored != "";
    var db := new AlarmDb();
    var first := db.CreateAlarm(userId, Format24(t));
    assert first == Created(1, stored);
    assert db.alarms == map[1 := Alarm(userId, stored, ACTIVE)];
    var second := db.CreateAlarm(userId, stored);
    assert IsActiveFor(db.alarms[1], userId, StandardizeTimeFormat(stored));
    assert second == AlreadyActive(1);
  }

  /**
   * A client scenario: cancelling succeeds twice in a row, and once cancelled the
   * same time can be set again under a new id.
   */
  method CancelTwiceThenRecreate(userId: int, time: string)
    requires time != ""
  {
    var db := new AlarmDb();
    var first := db.CreateAlarm(userId, time);
    assert first == Created(1, StandardizeTimeFormat(time));
    var cancelled := db.CancelAlarm(1);
    assert cancelled == Cancelled(1);
    var again := db.CancelAlarm(1);
    assert again == Cancelled(1);
    assert db.alarms.Keys == {1} && db.alarms[1].status == CANCELLED;
    var third := db.CreateAlarm(userId, time);
    assert third == Created(2, StandardizeTimeFormat(time));
  }



}
