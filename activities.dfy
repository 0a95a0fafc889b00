/** The activity registry: the activity record, the four built-in activities, lookup by id and
    removal by id. */
module Activities {
  import opened Options
  import opened Strings

  /** A trackable activity. `icon` is absent on user-created activities; `color` and `icon` are
      presentation only. Built-ins have `isCustom == false` and cannot be deleted. */
  datatype Activity = Activity(id: string, name: string, icon: Option<string>, color: string, isCustom: bool)

  /** The built-in activities the session starts with, in tab order. */
  const DefaultActivities: seq<Activity> := [
    Activity("mass", "Mass", Some("\U{26EA}"), "#673AB7", false),
    Activity("confession", "Confession", Some("\U{1F64F}"), "#2196F3", false),
    Activity("rosary", "Rosary", Some("\U{1F4FF}"), "#4CAF50", false),
    Activity("prayer", "Prayer", Some("\U{1F54A}\U{FE0F}"), "#FF9800", false)
  ]

  ghost predicate UniqueIds(activities: seq<Activity>) {
    forall i, j :: 0 <= i < j < |activities| ==> activities[i].id != activities[j].id
  }

  ghost predicate HasId(activities: seq<Activity>, id: string) {
    exists a :: a in activities && a.id == id
  }

  lemma DefaultActivitiesFacts()
    ensures |DefaultActivities| == 4
    ensures UniqueIds(DefaultActivities)
    ensures forall a :: a in DefaultActivities ==> !a.isCustom && HyphenFree(a.id) && a.name != ""
  {
  }

  /** `activities.find(a => a.id === id)`: the first activity with that id, if any. */
  function Find(activities: seq<Activity>, id: string): (r: Option<Activity>)
    ensures r.Some? ==> r.value in activities && r.value.id == id
    ensures r.None? <==> !HasId(activities, id)
  {
    if activities == [] then None
    else if activities[0].id == id then Some(activities[0])
    else Find(activities[1..], id)
  }

  /** Find returns the first match, not merely some match. */
  lemma {:induction false} FindFirst(activities: seq<Activity>, id: string, i: nat)
    requires i < |activities| && activities[i].id == id
    requires forall j :: 0 <= j < i ==> activities[j].id != id
    ensures Find(activities, id) == Some(activities[i])
  {
    if i > 0 {
      FindFirst(activities[1..], id, i - 1);
    }
  }

  /** With unique ids, looking up a listed activity's id finds that very activity. */
  lemma FindListed(activities: seq<Activity>, a: Activity)
    requires UniqueIds(activities) && a in activities
    ensures Find(activities, a.id) == Some(a)
  {
    var i :| 0 <= i < |activities| && activities[i] == a;
    FindFirst(activities, a.id, i);
  }

  /** `activities.filter(a => a.id !== id)` */
  function RemoveById(activities: seq<Activity>, id: string): (r: seq<Activity>)
    ensures forall a :: a in r <==> a in activities && a.id != id
    ensures |r| <= |activities|
    ensures !HasId(activities, id) ==> r == activities
  {
    if activities == [] then []
    else if activities[0].id == id then RemoveById(activities[1..], id)
    else [activities[0]] + RemoveById(activities[1..], id)
  }

  /** With unique ids, removing the id of the activity at position `i` yields the list without
      exactly that position, the others in their original order. */
  lemma RemoveByIdAt(activities: seq<Activity>, i: nat)
    requires UniqueIds(activities) && i < |activities|
    ensures RemoveById(activities, activities[i].id) == activities[..i] + activities[i + 1..]
  {
    var x := activities[i];
    var pre, post := activities[..i], activities[i + 1..];
    assert activities == (pre + [x]) + post;
    IdOnlyAt(activities, i);
    RemoveByIdConcat(pre + [x], post, x.id);
    RemoveByIdConcat(pre, [x], x.id);
    assert RemoveById([x], x.id) == [];
    assert RemoveById(pre, x.id) + [] == pre;
  }

  /** With unique ids, the id at position `i` occurs neither before nor after it. */
  lemma IdOnlyAt(activities: seq<Activity>, i: nat)
    requires UniqueIds(activities) && i < |activities|
    ensures !HasId(activities[..i], activities[i].id) && !HasId(activities[i + 1..], activities[i].id)
  {
    var id, pre, post := activities[i].id, activities[..i], activities[i + 1..];
    forall a | a in pre ensures a.id != id {
      var j :| 0 <= j < |pre| && pre[j] == a;
      assert activities[j] == a;
    }
    forall a | a in post ensures a.id != id {
      var j :| 0 <= j < |post| && post[j] == a;
      assert activities[i + 1 + j] == a;
    }
  }

  /** The filter distributes over concatenation. */
  lemma {:induction false} RemoveByIdConcat(a: seq<Activity>, b: seq<Activity>, id: string)
    ensures RemoveById(a + b, id) == RemoveById(a, id) + RemoveById(b, id)
  {
    if a == [] {
      assert a + b == b;
    } else {
      assert (a + b)[0] == a[0] && (a + b)[1..] == a[1..] + b;
      RemoveByIdConcat(a[1..], b, id);
    }
  }

  lemma UniqueTail(activities: seq<Activity>)
    requires UniqueIds(activities) && activities != []
    ensures UniqueIds(activities[1..])
  {
    var tail := activities[1..];
    forall p, q | 0 <= p < q < |tail| ensures tail[p].id != tail[q].id {
      assert tail[p] == activities[p + 1] && tail[q] == activities[q + 1];
    }
  }

  lemma HeadIdNotInTail(activities: seq<Activity>)
    requires UniqueIds(activities) && activities != []
    ensures !HasId(activities[1..], activities[0].id)
  {
    var tail := activities[1..];
    forall a | a in tail ensures a.id != activities[0].id {
      var j :| 0 <= j < |tail| && tail[j] == a;
      assert a == activities[j + 1];
    }
  }

  lemma {:induction false} RemoveByIdKeepsUnique(activities: seq<Activity>, id: string)
    requires UniqueIds(activities)
    ensures UniqueIds(RemoveById(activities, id))
  {
    if activities != [] {
      var tail := activities[1..];
      UniqueTail(activities);
      RemoveByIdKeepsUnique(tail, id);
      if activities[0].id != id {
        HeadIdNotInTail(activities);
        ConsKeepsUnique(activities[0], RemoveById(tail, id));
      }
    }
  }

  lemma ConsKeepsUnique(a: Activity, rest: seq<Activity>)
    requires UniqueIds(rest) && !HasId(rest, a.id)
    ensures UniqueIds([a] + rest)
  {
    var r := [a] + rest;
    forall p, q | 0 <= p < q < |r| ensures r[p].id != r[q].id {
      assert r[q] == rest[q - 1];
      if p > 0 {
        assert r[p] == rest[p - 1];
      }
    }
  }

  /** The first of a list, or nothing for an empty list (`newActivities[0]` is `undefined`). */
  function First(activities: seq<Activity>): (r: Option<Activity>)
    ensures r.None? <==> activities == []
    ensures r.Some? ==> r.value == activities[0]
  {
    if activities == [] then None else Some(activities[0])
  }
}
