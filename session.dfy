/** The session held by the root component: the activity list, the selected activity, the set of
    attendance keys and the latest celebration record, with one method per event handler. */
module App {
  import opened Options
  import opened Strings
  import opened Attendance
  import opened Activities
  import Milestones

  /** What the celebration modal is shown from. */
  datatype Celebration = Celebration(visible: bool, activity: Option<Activity>, oldCount: nat, newCount: nat)

  const NoCelebration: Celebration := Celebration(false, None, 0, 0)

  /** What became of a delete request. The source returns nothing; the outcome only names which
      of its three paths was taken. */
  datatype DeleteOutcome = NotPermitted | Cancelled | Deleted

  class Session {
    var activities: seq<Activity>
    var selectedActivity: Option<Activity>
    var attendedDays: set<string>
    var celebration: Celebration

    constructor ()
      ensures activities == DefaultActivities
      ensures selectedActivity == Some(DefaultActivities[0])
      ensures attendedDays == {}
      ensures celebration == NoCelebration
    {
      activities := DefaultActivities;
      selectedActivity := Some(DefaultActivities[0]);
      attendedDays := {};
      celebration := NoCelebration;
    }

    /** `getActivityCount`: the lifetime count of an activity in the current set; zero exactly
        when no key of the set carries the activity's prefix. */
    function GetActivityCount(activityId: string): (n: nat)
      reads this
      ensures n <= |attendedDays|
      ensures n == 0 <==> forall s :: s in attendedDays ==> !(activityId + "-" <= s)
    {
      ActivityCount(attendedDays, activityId)
    }

    /** `handleToggleDay`, with the clock's year and zero-based month passed in. Flips the day's key;
        on an add it records a visible celebration whose old count is the lifetime count read from
        the set before the toggle. */
    method ToggleDay(activityId: string, day: nat, year: nat, month: nat)
      modifies this
      ensures attendedDays == Toggle(old(attendedDays), KeyString(DayKey(activityId, year, month, day)))
      ensures activities == old(activities) && selectedActivity == old(selectedActivity)
      ensures KeyString(DayKey(activityId, year, month, day)) !in old(attendedDays) ==>
        celebration == Celebration(true, Find(activities, activityId),
                                   ActivityCount(old(attendedDays), activityId),
                                   ActivityCount(old(attendedDays), activityId) + 1)
        && celebration.newCount == GetActivityCount(activityId)
      ensures KeyString(DayKey(activityId, year, month, day)) in old(attendedDays) ==>
        celebration == old(celebration)
        && GetActivityCount(activityId) + 1 == ActivityCount(old(attendedDays), activityId)
    {
      var dateKey := KeyString(DayKey(activityId, year, month, day));
      var newAttendedDays := attendedDays;
      var isAdding := dateKey !in newAttendedDays;
      if dateKey in newAttendedDays {
        newAttendedDays := newAttendedDays - {dateKey};
      } else {
        newAttendedDays := newAttendedDays + {dateKey};
      }
      var before := attendedDays;
      attendedDays := newAttendedDays;
      ToggleActivityCount(before, DayKey(activityId, year, month, day));
      if isAdding {
        var oldCount := ActivityCount(before, activityId);
        var newCount := oldCount + 1;
        var activity := Find(activities, activityId);
        celebration := Celebration(true, activity, oldCount, newCount);
      }
    }

    /** `handleAddActivity`: append the activity and select it. */
    method AddActivity(newActivity: Activity)
      modifies this
      ensures activities == old(activities) + [newActivity]
      ensures selectedActivity == Some(newActivity)
      ensures attendedDays == old(attendedDays) && celebration == old(celebration)
      ensures old(UniqueIds(activities)) && !HasId(old(activities), newActivity.id) ==> UniqueIds(activities)
    {
      activities := activities + [newActivity];
      selectedActivity := Some(newActivity);
      if old(UniqueIds(activities)) && !HasId(old(activities), newActivity.id) {
        forall i | 0 <= i < |old(activities)| ensures activities[i].id != newActivity.id {
          assert activities[i] in old(activities);
        }
      }
    }

    /** `onSelectActivity`: a tap on a tab selects that activity. */
    method SelectActivity(activity: Activity)
      modifies this
      ensures selectedActivity == Some(activity)
      ensures activities == old(activities) && attendedDays == old(attendedDays)
      ensures celebration == old(celebration)
    {
      selectedActivity := Some(activity);
    }

    /** `handleDeleteActivity`, with the answer of the confirmation dialog passed in. Nothing
        changes unless the activity found for the id is custom and the user confirmed; then the
        activity leaves the list, its keys leave the set, and a selection of it falls back to the
        first remaining activity. */
    method DeleteActivity(activityId: string, confirmed: bool) returns (outcome: DeleteOutcome)
      modifies this
      ensures var found := old(Find(activities, activityId));
        outcome == (if found.None? || !found.value.isCustom then NotPermitted
                    else if !confirmed then Cancelled
                    else Deleted)
      ensures outcome != Deleted ==>
        activities == old(activities) && attendedDays == old(attendedDays)
        && selectedActivity == old(selectedActivity) && celebration == old(celebration)
      ensures outcome == Deleted ==>
        activities == RemoveById(old(activities), activityId)
        && attendedDays == Purge(old(attendedDays), activityId)
        && celebration == old(celebration)
        && selectedActivity == (if old(selectedActivity).Some? && old(selectedActivity).value.id == activityId
                                then First(activities) else old(selectedActivity))
        && Find(activities, activityId) == None && GetActivityCount(activityId) == 0
      ensures old(UniqueIds(activities)) && (exists b :: b in old(activities) && !b.isCustom && b.id == activityId) ==>
        outcome == NotPermitted
      ensures old(UniqueIds(activities)) ==>
        UniqueIds(activities) && forall b :: b in old(activities) && !b.isCustom ==> b in activities
    {
      if UniqueIds(activities) && exists b :: b in activities && !b.isCustom && b.id == activityId {
        var b :| b in activities && !b.isCustom && b.id == activityId;
        FindListed(activities, b);
      }
      var activity := Find(activities, activityId);
      if activity.None? || !activity.value.isCustom {
        return NotPermitted;
      }
      if !confirmed {
        return Cancelled;
      }
      var newActivities := RemoveById(activities, activityId);
      var newAttendedDays := Purge(attendedDays, activityId);
      if old(UniqueIds(activities)) {
        RemoveByIdKeepsUnique(activities, activityId);
        forall b | b in activities && !b.isCustom ensures b in newActivities {
          BuiltinSurvives(activities, activity.value, b);
        }
      }
      activities := newActivities;
      attendedDays := newAttendedDays;
      if selectedActivity.Some? && selectedActivity.value.id == activityId {
        selectedActivity := First(newActivities);
      }
      outcome := Deleted;
    }

    /** `onClose` of the celebration modal: hide it, keep its contents. */
    method CloseCelebration()
      modifies this
      ensures celebration == old(celebration).(visible := false)
      ensures activities == old(activities) && selectedActivity == old(selectedActivity)
      ensures attendedDays == old(attendedDays)
    {
      celebration := celebration.(visible := false);
    }
  }

  /** With unique ids, a built-in activity never shares its id with the custom activity being
      deleted, so it survives the filter. */
  lemma BuiltinSurvives(activities: seq<Activity>, deleted: Activity, b: Activity)
    requires UniqueIds(activities)
    requires deleted in activities && deleted.isCustom
    requires b in activities && !b.isCustom
    ensures b.id != deleted.id
  {
    var i :| 0 <= i < |activities| && activities[i] == deleted;
    var j :| 0 <= j < |activities| && activities[j] == b;
    assert i != j;
  }

  /** Two taps on the same day in a row restore the attendance set and never touch the activities
      or the selection. Exactly one of the two taps adds the key and records the celebration: the
      first when the day was unmarked, the second when it was marked. */
  method ToggleTwiceRestores(session: Session, activityId: string, day: nat, year: nat, month: nat)
    modifies session
    ensures session.attendedDays == old(session.attendedDays)
    ensures session.activities == old(session.activities)
    ensures session.selectedActivity == old(session.selectedActivity)
    ensures KeyString(DayKey(activityId, year, month, day)) in old(session.attendedDays) ==>
      session.celebration.visible && session.celebration.newCount == session.GetActivityCount(activityId)
    ensures KeyString(DayKey(activityId, year, month, day)) !in old(session.attendedDays) ==>
      session.celebration == Celebration(true, Find(session.activities, activityId),
                                         ActivityCount(old(session.attendedDays), activityId),
                                         ActivityCount(old(session.attendedDays), activityId) + 1)
  {
    session.ToggleDay(activityId, day, year, month);
    session.ToggleDay(activityId, day, year, month);
    ToggleTwice(old(session.attendedDays), KeyString(DayKey(activityId, year, month, day)));
  }

  /** A fresh session driven through the two branches of `handleToggleDay` (App.js:57-87): the
      first tap on a Rosary day adds its key and celebrates a count going from 0 to 1 with the
      first milestone message; the second tap removes the key and leaves the celebration alone. */
  method RosaryScenario(year: nat, month: nat)
  {
    var session := new Session();
    session.ToggleDay("rosary", 3, year, month);
    var c := session.celebration;
    assert c.visible && c.oldCount == 0 && c.newCount == 1;
    assert c.activity == Some(DefaultActivities[2]);
    assert Milestones.MessageFor(c.newCount) == "Great start!";
    session.ToggleDay("rosary", 3, year, month);
    assert KeyString(DayKey("rosary", year, month, 3)) !in session.attendedDays;
    assert session.attendedDays == {};
    assert session.celebration == c;
  }
}
